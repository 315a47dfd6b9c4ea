# EcosRev points exchange, session store, header and route guard — a Dafny model

EcosRev is a recycling-rewards web front end. A user collects points and exchanges them for
benefits (`beneficios`) that an administrator registers. This project models four parts of it:

- **The exchange page** (`src/app/beneficios/troca/page.tsx`):
  - The table lists the benefits four at a time (`BenefitTable.DisplayedRows`, `PagesCoverRows`).
  - Clicking a row toggles it in the table's selection (`ToggleRow`). The new selection is reported to the page, which recomputes the running total as a left fold over the entries' `pontos` (`Total`).
  - Pressing *Trocar* (`Settlement.AfterExchange`, implemented by `ExchangePage.Beneficios.HandleExchange`) does the following:
    - It refuses a total above the balance with an alert.
    - Otherwise it persists the new balance, then walks the selection in order. Each in-stock entry is sent back with one unit less, taken from its snapshot in the selection, and is written into the local rows once the backend accepted it. An entry without stock only raises an alert.
    - It finally clears the selection and total and reports success.
    - A request that throws stops the walk and shows the error alert. What was persisted stays persisted; nothing is rolled back and the selection is kept.
  - The two services are the class `ExchangePage.Backend`. Which of its attempts throw is fixed by the set `throwsAt`, so every partial-failure schedule can be stated.
- **The session store** (`src/app/login_api.tsx`), modelled as the class `Session.AuthClient`:
  - Local storage and the HTTP client's common headers are two maps.
  - `login` stores a truthy `access_token` under `authToken` and sets `Authorization: Bearer <token>`.
  - `isAuthenticated` tests for the key, `getToken` reads it, and `logout` removes the key and the header.
- **The header** (`src/components/UI/molecules/Header.tsx`), modelled as `Header.NavMenu`:
  - No links and no logout button on `/`, `/signup`, `/passwordReset`, `/passwordRecovery`.
  - Elsewhere, three common links, then three admin links when the user type is exactly `"admin"`.
  - The logout button logs out and navigates to `/`.
- **The route guard** (`routes/Privateroute.tsx`), modelled as `PrivateRoute.Guard`: it renders the children when the role, with a missing role read as `""`, is in the allow-list, and otherwise redirects to `/home`.

Modules and files:

| file | module | contents |
|---|---|---|
| `wrappers.dfy` | `Wrappers` | `Option` |
| `benefit_table.dfy` | `BenefitTable` | rows, pagination, selection toggling, running total (pure) |
| `settlement.dfy` | `Settlement` | the exchange as functions over the page and backend state, with the lemmas about it |
| `exchange_page.dfy` | `ExchangePage` | the backend, the table and the page as classes whose handlers are proved against `Settlement` |
| `session.dfy` | `Session` | the session store as functions and as the class `AuthClient` |
| `header.dfy` | `Header` | the menu function and the logout handler |
| `private_route.dfy` | `PrivateRoute` | the guard |

Behaviour of the code that the model makes explicit:

- **The balance is charged in full.** It drops by the whole selected total, out-of-stock entries included (`Settlement.ExchangeSucceeds`).
- **The stock written comes from the click-time snapshot.** The new stock is the selection's copy minus one, whatever the row holds now.
- **The table keeps its selection after a success.** The table's own selection is not reset when the exchange succeeds. After one exchange, clicking another row reports the old entries again with their old snapshots. A second exchange then charges them again but writes the same stock as the first one did (`Settlement.StaleTableSelection`).
- **Only the button checks for an empty selection** (`Settlement.EmptySelectionStillSendsPoints`).

`ExchangePage.SuccessfulExchangeScenario` plays a session on the page's test fixture through the classes: the fixture's two rows worth 100 and 200 points, a balance of 300 (the tests' user holds 200), both rows clicked, then the exchange. It has no contract of its own; its assertions are the checked part.

Where the code and its tests disagree, the model follows the code:

- The tests expect the session store to keep an `isAdmin` key and expect `getToken` to fail with `"erro"`. `login_api.tsx` does neither.
- Exceptions in `login` are caught, and `null` is returned.

## Model

| member | source | states |
|---|---|---|
| BenefitTable.Slice | src/app/beneficios/troca/page.tsx:50 | `slice` clamps both bounds to the length: the result's length is the clamped span (empty when the end is not after the start) and it is the run of elements starting at `start` |
| BenefitTable.DisplayedRows | src/app/beneficios/troca/page.tsx:33-50 | page `p` shows at most 4 rows, exactly `min(4, n - 4p)` of them when `4p < n` and none otherwise, and they are rows `4p, 4p+1, …` in order |
| BenefitTable.FirstPagesArePrefix | src/app/beneficios/troca/page.tsx:50 | pages 0..n-1 read in order are the first `min(4n, length)` rows |
| BenefitTable.PagesCoverRows | src/app/beneficios/troca/page.tsx:111-117 | the `ceil(length/4)` pages the pagination offers hold every row exactly once, in order; each is non-empty and every later page is empty |
| BenefitTable.RemoveId | src/app/beneficios/troca/page.tsx:40 | filtering by `_id` leaves no entry with that id, keeps only original entries and every entry with another id, shortens a selection that had the id and leaves one without it unchanged |
| BenefitTable.RemoveIdAppend | src/app/beneficios/troca/page.tsx:40 | the filter distributes over concatenation |
| BenefitTable.RemoveIdOfUnique | src/app/beneficios/troca/page.tsx:40 | with unique ids, deselecting entry i removes exactly that entry and keeps the order of the rest |
| BenefitTable.ToggleRow | src/app/beneficios/troca/page.tsx:37-44 | after a click the row is selected iff it was not before; entries with other ids are kept (and none added); an unselected row is appended at the end |
| BenefitTable.ToggleTwiceRestores | src/app/beneficios/troca/page.tsx:37-44 | clicking an unselected row twice restores the selection exactly |
| BenefitTable.ToggleTwiceSelected | src/app/beneficios/troca/page.tsx:37-44 | clicking a selected row twice (unique ids) yields a permutation of the selection |
| BenefitTable.RemoveIdKeepsUniqueIds | src/app/beneficios/troca/page.tsx:40 | filtering keeps the ids unique |
| BenefitTable.ToggleKeepsUniqueIds | src/app/beneficios/troca/page.tsx:37-44 | clicks never create two entries with the same id |
| BenefitTable.ClickUpdatedRow | src/app/beneficios/troca/page.tsx:37-44 | under the `_id` identity of the model, a click on a replaced record with the same `_id` deselects the old entry; the code's reference test appends it instead (see "Left out") |
| BenefitTable.Total | src/app/beneficios/troca/page.tsx:156 | by definition the `reduce` from 0 that adds each entry's `pontos`, first to last; `TotalAppend`, `TotalPermutation`, `TotalAfterSelect` and `TotalAfterDeselect` state what follows from it |
| BenefitTable.TotalAppend | src/app/beneficios/troca/page.tsx:156 | the fold's total of a concatenation is the sum of the totals |
| BenefitTable.TotalPermutation | src/app/beneficios/troca/page.tsx:156 | the total depends only on the multiset of selected entries, not on click order |
| BenefitTable.TotalAfterSelect | src/app/beneficios/troca/page.tsx:37-44 | selecting a row adds exactly its points to the total |
| BenefitTable.TotalAfterDeselect | src/app/beneficios/troca/page.tsx:37-44 | deselecting entry i (unique ids) subtracts exactly its points |
| BenefitTable.TotalRemoveAt | src/app/beneficios/troca/page.tsx:156 | taking entry i out of the selection takes exactly its points off the total |
| BenefitTable.ClickTwoRows | tests/pages/beneficios/troca/Troca.spec.tsx:66-83 | clicking two rows with different ids selects both in click order, and the total is the sum of their points |
| BenefitTable.TotalOfTwoBenefits | tests/pages/beneficios/troca/Troca.spec.tsx:21-81 | the fixture rows of 100 and 200 points total 300 |
| Settlement.AlertText | src/app/beneficios/troca/page.tsx:161-196 | by definition the four alert texts word for word, the out-of-stock one with the benefit's `nome` inserted |
| Settlement.Step | src/app/beneficios/troca/page.tsx:171-188 | by definition one turn of the loop: an in-stock entry sends its snapshot with one unit less and, if the request completes, gives every row with that `_id` the new stock; a throw ends the walk; an entry without stock adds its out-of-stock alert; after a throw nothing changes |
| Settlement.Settle | src/app/beneficios/troca/page.tsx:171-188 | by definition `Step` applied to the selection's entries in order; `SettleStopsAfterFailure`, `SettleOutcome`, `SettleRows` and `SettlePageOutcome` state its outcome |
| Settlement.Begin | src/app/beneficios/troca/page.tsx:166-169 | by definition the state once the points update completed: balance lowered by the total, the update persisted and counted |
| Settlement.Conclude | src/app/beneficios/troca/page.tsx:190-197 | by definition the end of the handler: the error alert after a throw, otherwise the success alert with the total and selection reset |
| Settlement.AfterExchange | src/app/beneficios/troca/page.tsx:159-198 | by definition the whole handler: the insufficient-points alert when the total exceeds the balance, the error alert when the points update throws, and otherwise `Begin`, `Settle` over the selection and `Conclude`; `ExchangeSettlement`, `ExchangeSucceeds`, `PointsPersistedFirst` and `ExchangeKeepsTotal` state its outcome |
| Settlement.CanExchange | src/app/beneficios/troca/page.tsx:244 | by definition the button is enabled iff the selection is non-empty and the total does not exceed the balance; `EnabledButtonPassesCheck` and `DisabledButtonMeansRefusal` relate it to the handler |
| Settlement.FirstThrow | src/app/beneficios/troca/page.tsx:171-188 | the number of stock requests completed before the first throw is at most the number sent, and when fewer completed the next attempt is one that throws |
| Settlement.FirstThrowIsFirst | src/app/beneficios/troca/page.tsx:171-188 | no attempt before that point throws |
| Settlement.SettleStopsAfterFailure | src/app/beneficios/troca/page.tsx:171-197 | once a request has thrown, the rest of the selection changes nothing |
| Settlement.SettleOutcome | src/app/beneficios/troca/page.tsx:171-188 | the walk fails iff one of its stock requests threw; the backend then holds exactly the first k stock records (k = those completed before the first throw), and the attempts grow by k, plus one for the request that threw |
| Settlement.SettleRows | src/app/beneficios/troca/page.tsx:171-184 | the rows receive exactly those k records, in order, and nothing is rolled back |
| Settlement.SettlePageOutcome | src/app/beneficios/troca/page.tsx:171-188 | the walk leaves the selection, total and balance alone, only appends alerts, all of them out-of-stock ones, and appends one per entry without stock when nothing threw |
| Settlement.RejectedExchangeChangesNothing | src/app/beneficios/troca/page.tsx:160-163 | a total above the balance sends nothing and changes nothing but the insufficient-points alert |
| Settlement.PointsUpdateThrows | src/app/beneficios/troca/page.tsx:165-197 | if the points update throws, nothing is persisted, the balance and selection are kept, and only the error alert is added |
| Settlement.ExchangeSettlement | src/app/beneficios/troca/page.tsx:159-198 | after a persisted points update the balance is the old one minus the total (and non-negative); the backend holds the points update followed by the first k stock records; the rows reflect them without rollback; the selection and total are cleared with a success alert iff all records completed, and kept with the error alert last otherwise |
| Settlement.PointsPersistedFirst | src/app/beneficios/troca/page.tsx:166-178 | under any failure schedule, the backend's log only grows, and whatever it gains begins with the new balance followed only by stock updates |
| Settlement.ExchangeKeepsTotal | src/app/beneficios/troca/page.tsx:190-197 | the total stays the sum of the selection across an exchange, whatever throws |
| Settlement.StockAfterSettlement | src/app/beneficios/troca/page.tsx:171-184 | with unique ids, once every record is accepted, a row selected with stock takes its snapshot's stock minus one, a row selected without stock and an unselected row are unchanged |
| Settlement.StockStep | src/app/beneficios/troca/page.tsx:180-184 | one more selected entry changes only the rows with its id, to its snapshot stock minus one |
| Settlement.ExchangeSucceeds | src/app/beneficios/troca/page.tsx:159-193 | if no request throws, the balance loses the whole selected total, each selected in-stock row loses one unit from its snapshot, other rows are unchanged, the selection and total are reset and the success alert is last |
| Settlement.EnabledButtonPassesCheck | src/app/beneficios/troca/page.tsx:244 | pressing the enabled button always attempts the points update, and it is persisted first when it does not throw |
| Settlement.DisabledButtonMeansRefusal | src/app/beneficios/troca/page.tsx:244 | with a non-empty selection, a disabled button means the exchange would be refused with the insufficient-points alert |
| Settlement.EmptySelectionStillSendsPoints | src/app/beneficios/troca/page.tsx:159-169 | the handler itself does not check for an empty selection: it would still persist the unchanged balance |
| Settlement.TwoBenefitExchange | tests/pages/beneficios/troca/Troca.spec.tsx:22-39 | with the fixture's two benefits of 100 and 200 points selected against a balance of 300 and no throw, the backend receives balance 0 and both records one unit down, in order; the rows lose one unit each; the selection and total are reset with the success alert alone |
| Settlement.StaleTableSelection | src/app/beneficios/troca/page.tsx:31-193 | the table's selection survives a successful exchange; exchanging `a`, clicking `b` and exchanging again charges `a` twice but leaves `a`'s stock only one unit down |
| ExchangePage.Backend.UpdateUserPoints | src/app/beneficios/troca/page.tsx:168 | the request succeeds iff its attempt number is not a throwing one; only a completed request is logged; the attempt counter advances |
| ExchangePage.Backend.UpdateBenefit | src/app/beneficios/troca/page.tsx:178 | the same for a benefit record |
| ExchangePage.Beneficios.constructor | src/app/beneficios/troca/page.tsx:124-127 | the page starts with no rows, no selection, total 0 and balance 0 |
| ExchangePage.Beneficios.ReceiveBenefits | src/app/beneficios/troca/page.tsx:137-148 | the fetched list replaces the rows and nothing else |
| ExchangePage.Beneficios.ReceiveBalance | src/app/beneficios/troca/page.tsx:132-135 | the fetched balance replaces the points and nothing else |
| ExchangePage.Beneficios.HandleRowSelect | src/app/beneficios/troca/page.tsx:154-157 | the reported selection is stored and the total becomes its sum |
| ExchangePage.Beneficios.HandleExchange | src/app/beneficios/troca/page.tsx:159-198 | the handler's new page and backend state are exactly `Settlement.AfterExchange` of the old ones, and the total stays the sum of the selection |
| ExchangePage.Beneficios.SettleSelection | src/app/beneficios/troca/page.tsx:171-188 | the loop leaves page and backend exactly as `Settlement.Settle` says, reports whether a request threw, and leaves the selection and total alone |
| ExchangePage.SelectTwoBenefits | tests/pages/beneficios/troca/Troca.spec.tsx:66-83 | after loading the fixture rows and a balance of 300 and clicking both rows, the page holds both rows selected with total 300, and the table holds both on page 0 |
| ExchangePage.SelectableTable.constructor | src/app/beneficios/troca/page.tsx:31-32 | the table starts with no selection on page 0, which trivially has unique ids |
| ExchangePage.SelectableTable.HandleRowClick | src/app/beneficios/troca/page.tsx:37-44 | the table's selection becomes `ToggleRow` of the old one, and the parent receives exactly that selection and its total; a selection with unique ids keeps them, in the table and in the parent |
| ExchangePage.SelectableTable.HandleChangePage | src/app/beneficios/troca/page.tsx:46-48 | only the page number changes, so the selection keeps unique ids |
| Session.AcceptedToken | src/app/login_api.tsx:81-82 | a response is accepted iff it arrived with a non-empty `access_token`, and the accepted token is that one |
| Session.LoginStore | src/app/login_api.tsx:81-92 | by definition an accepted token is written under `authToken` and as `Bearer <token>` in the Authorization header, and any other outcome leaves the store as it was |
| Session.LogoutStore | src/app/login_api.tsx:114-117 | by definition the `authToken` key and the Authorization header are removed |
| Session.LoginWithToken | src/app/login_api.tsx:81-88 | an accepted token is stored under `authToken`, becomes `Bearer <token>`, and is what `getToken` then reads |
| Session.LoginWithoutToken | src/app/login_api.tsx:91-100 | a missing or empty token, or a request that threw, changes nothing and yields null |
| Session.LogoutClearsOnlySession | src/app/login_api.tsx:114-117 | logout removes the token and the Authorization header, keeps every other key and header, and is idempotent |
| Session.LoginThenLogout | src/app/login_api.tsx:70-117 | after logout the user is unauthenticated whatever login did, and the store is as if login had not happened |
| Session.AuthClient.Login | src/app/login_api.tsx:70-101 | returns the accepted token or null and updates storage and headers as `LoginStore` says |
| Session.AuthClient.IsAuthenticated | src/app/login_api.tsx:104-106 | true iff `authToken` is present |
| Session.AuthClient.GetToken | src/app/login_api.tsx:109-111 | the stored token, or null iff none is stored |
| Session.AuthClient.Logout | src/app/login_api.tsx:114-117 | storage and headers become `LogoutStore` of the old ones |
| Header.IsSpecialPage | src/components/UI/molecules/Header.tsx:25-30 | by definition the path is one of the four listed (`SpecialPagesExactly` spells it out) |
| Header.IsAdminUser | src/components/UI/molecules/Header.tsx:33 | by definition the user type is present and exactly "admin" |
| Header.NavMenu | src/components/UI/molecules/Header.tsx:25-160 | the logout button shows iff the page is not special; special pages show no links; other pages show the three common links first, plus three only for an admin |
| Header.SpecialPagesExactly | src/components/UI/molecules/Header.tsx:25-30 | a page is special iff its path is exactly one of the four listed |
| Header.MenuTargets | src/components/UI/molecules/Header.tsx:62-145 | off the special pages the link targets are exactly /home, /perfil, /beneficios/troca, and then /beneficios, /usuarios, /beneficios/cadastro for an admin |
| Header.AdminLinksIff | src/components/UI/molecules/Header.tsx:33-143 | an admin link appears iff the page is not special and the user type is exactly "admin" |
| Header.CustomerMenuIsPrefix | src/components/UI/molecules/Header.tsx:62-145 | any non-admin menu is the admin menu without its admin links |
| Header.OnLogoutClick | src/components/UI/molecules/Header.tsx:150-154 | the logout button clears the session as `logout` does and navigates to "/" |
| PrivateRoute.EffectiveRole | routes/Privateroute.tsx:16 | the role or, when it is missing, the empty string: the role checked is empty iff the role is missing or empty, and otherwise is the role itself |
| PrivateRoute.Guard | routes/Privateroute.tsx:10-21 | the children render iff the effective role is in the allow-list; otherwise the guard navigates to /home |
| PrivateRoute.MissingRoleIsEmptyRole | routes/Privateroute.tsx:16 | a missing role is judged as the empty role |
| PrivateRoute.EmptyAllowListRedirects | routes/Privateroute.tsx:16-18 | an empty allow-list redirects everyone to /home |
| PrivateRoute.MoreRolesNeverRedirect | routes/Privateroute.tsx:16 | the guard is monotone in the allow-list: allowing more roles never turns a render into a redirect |
| PrivateRoute.AdminOnlyRoute | routes/Privateroute.tsx:10-21 | an admin-only route renders for "admin" and redirects a customer to /home |

## Left out

- The network is not modelled. This covers the login request, its URL and its body (`email`, `senha`), the base URL, and the client-side service wrappers that send the requests over the shared axios instance (`routes/userRoute.tsx`, `routes/benefitRoute.tsx`). Each service call is one of two outcomes, completed or thrown, chosen by `throwsAt`. The login response is an input.
- The `userService` exported by `routes/userRoute.tsx:32-87` defines neither `getLoggedUser` nor `updateUserPoints`; only the mocks of the page's tests supply them. As written, the balance fetch at `page.tsx:133` therefore rejects and the balance stays at its initial 0, so every selection with a positive total is refused (`Settlement.RejectedExchangeChangesNothing`). The points update at `page.tsx:168` throws a `TypeError`, which the handler catches with the error alert. That is the schedule in which the first attempt always throws, modelled by `Settlement.PointsUpdateThrows`. The model keeps both services as parameters so the intended behaviour can be stated too.
- Asynchrony and React's batching of state updates are not modelled. The model treats each state setter as taking effect at once. It keeps the order that the code awaits, and the fetches on mount are separate handlers.
- `Number(...)` coercion and `toString()` are not modelled. The user's `pontos` arrives as a string (`routes/userRoute.tsx:10`), which `page.tsx:134` converts with `Number(...)`; points and stock are modelled as integers, and the balance sent as a decimal string is modelled as the integer.
- `isAdmin` is not part of this model. `Header.tsx` and `Privateroute.tsx` import it, but `login_api.tsx` does not define it, so the user type and role are inputs.
- The table's row membership test (`includes`) compares object references. The model compares `_id`, which is the identity the filter at `page.tsx:40` uses. Two distinct objects with the same `_id` are therefore told apart by the code but not by the model.
  This shows up in normal use: after an exchange has updated row `a`, the rows hold a new object for `a` while the table's selection still holds the old one. A click on the updated row is then not recognised by `includes`, so the code appends a second entry with `a`'s `_id`, and the next exchange charges `a` twice and lowers its stock twice. The model deselects `a` instead (`BenefitTable.ClickUpdatedRow`).
- Rendering, styling, the mobile layout, the checkboxes, the total and balance labels, and `console` output are not modelled. Alerts are a log of `Settlement.Alert` values, and `Settlement.AlertText` holds their exact texts.
- `TablePagination` is a library component and is not modelled. Only the count it is given and the page it reports are.
- The other pages of the repository (cadastro, perfil, the user templates) are not part of this model.
