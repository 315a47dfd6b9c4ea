/** What pressing the exchange button does, as functions over the page's state and the
    backend's: the balance check, the points update, the walk over the selection that
    decrements the stock of each in-stock benefit, and the reset of the selection. The two
    service calls either complete or throw; which attempts throw is a parameter, so partial
    failure (no rollback, selection kept) can be stated and proved. */
module Settlement {
  import opened BenefitTable

  /** The messages the page shows with `alert`. */
  datatype Alert = InsufficientPoints | OutOfStock(nome: string) | ExchangeSucceeded | ExchangeFailed

  function AlertText(a: Alert): string {
    match a
    case InsufficientPoints => "Você não tem pontos suficientes para realizar a troca."
    case OutOfStock(nome) => "O benefício " + nome + " está sem estoque."
    case ExchangeSucceeded => "Troca realizada com sucesso!"
    case ExchangeFailed => "Erro ao realizar a troca. Tente novamente."
  }

  /** A request to the backend: the user's new balance (sent as its decimal string), or a
      benefit record with its new stock. */
  datatype Call = UpdateUserPoints(pontos: int) | UpdateBenefit(benefit: Benefit)

  /** The backend as the page sees it: the requests it completed, in order, and how many
      requests were attempted so far. */
  datatype Server = Server(log: seq<Call>, attempts: nat)

  /** One request. The attempt numbered `s.attempts` throws when that number is in `throwsAt`;
      otherwise the backend completes it. */
  function Perform(s: Server, c: Call, throwsAt: set<nat>): Server {
    Server(if s.attempts in throwsAt then s.log else s.log + [c], s.attempts + 1)
  }

  /** The state of the exchange page: the table's rows, the selection it was last told about,
      the running total, the user's balance, and the alerts shown so far. */
  datatype Page = Page(rows: seq<Benefit>, selected: seq<Benefit>, total: int, points: int,
                       alerts: seq<Alert>)

  datatype World = World(page: Page, server: Server)

  /** The state part-way through the walk over the selection, and whether a call has thrown. */
  datatype Progress = Progress(world: World, failed: bool)

  /** The record sent for a selected benefit: its snapshot with one unit less. */
  function Decremented(b: Benefit): Benefit {
    b.(quantidade := b.quantidade - 1)
  }

  /** The local rows after the backend accepted `u`: every row with `u`'s identifier takes
      `u`'s stock, every other row and field stays as it was. */
  function ApplyUpdate(rows: seq<Benefit>, u: Benefit): seq<Benefit> {
    seq(|rows|, k requires 0 <= k < |rows| =>
      if rows[k].id == u.id then rows[k].(quantidade := u.quantidade) else rows[k])
  }

  /** `ApplyUpdate` for each of `updates`, first to last. */
  function ApplyAll(rows: seq<Benefit>, updates: seq<Benefit>): (r: seq<Benefit>)
    ensures |r| == |rows|
    ensures forall k :: 0 <= k < |rows| ==> r[k] == rows[k].(quantidade := r[k].quantidade)
  {
    if updates == [] then rows
    else ApplyUpdate(ApplyAll(rows, updates[..|updates| - 1]), updates[|updates| - 1])
  }

  /** The benefit records the walk sends, in order: one per in-stock entry of the selection. */
  function StockUpdates(selection: seq<Benefit>): seq<Benefit> {
    if selection == [] then []
    else
      var init := StockUpdates(selection[..|selection| - 1]);
      var last := selection[|selection| - 1];
      if last.quantidade > 0 then init + [Decremented(last)] else init
  }

  /** The out-of-stock alerts the walk shows, in order: one per entry without stock. */
  function SkipAlerts(selection: seq<Benefit>): seq<Alert> {
    if selection == [] then []
    else
      var init := SkipAlerts(selection[..|selection| - 1]);
      var last := selection[|selection| - 1];
      if last.quantidade > 0 then init else init + [OutOfStock(last.nome)]
  }

  /** The stock requests for `updates`, one per record, in order. */
  function BenefitCalls(updates: seq<Benefit>): (r: seq<Call>)
    ensures |r| == |updates|
    ensures forall k :: 0 <= k < |r| ==> r[k] == UpdateBenefit(updates[k])
  {
    if updates == [] then []
    else BenefitCalls(updates[..|updates| - 1]) + [UpdateBenefit(updates[|updates| - 1])]
  }

  /** The number of requests, out of `n` starting at attempt `a`, that complete before the
      first one that throws: all `n` when none of them throws. */
  function FirstThrow(a: nat, n: nat, throwsAt: set<nat>): (r: nat)
    ensures r <= n
    ensures r < n ==> a + r in throwsAt
  {
    if n == 0 then 0
    else
      var r0 := FirstThrow(a, n - 1, throwsAt);
      if r0 < n - 1 then r0 else if a + n - 1 in throwsAt then n - 1 else n
  }

  /** FirstThrow finds the first throwing attempt: none of the attempts before it throws. */
  lemma {:induction false} FirstThrowIsFirst(a: nat, n: nat, throwsAt: set<nat>)
    ensures forall j :: a <= j < a + FirstThrow(a, n, throwsAt) ==> j !in throwsAt
  {
    if n > 0 {
      FirstThrowIsFirst(a, n - 1, throwsAt);
    }
  }

  /** One turn of the loop over the selection: an in-stock entry is sent with one unit less and,
      once the backend accepts it, written into the rows; an entry without stock only raises an
      alert. After a call has thrown nothing happens any more. */
  function Step(p: Progress, selected: Benefit, throwsAt: set<nat>): Progress {
    if p.failed then p
    else if selected.quantidade > 0 then
      var u := Decremented(selected);
      var s := p.world.server;
      var s' := Perform(s, UpdateBenefit(u), throwsAt);
      if s.attempts in throwsAt then Progress(World(p.world.page, s'), true)
      else Progress(World(p.world.page.(rows := ApplyUpdate(p.world.page.rows, u)), s'), false)
    else
      var page := p.world.page;
      Progress(World(page.(alerts := page.alerts + [OutOfStock(selected.nome)]), p.world.server), false)
  }

  /** The loop over the whole selection, in order. */
  function Settle(p: Progress, selection: seq<Benefit>, throwsAt: set<nat>): Progress {
    if selection == [] then p
    else Step(Settle(p, selection[..|selection| - 1], throwsAt), selection[|selection| - 1], throwsAt)
  }

  /** The walk's starting point once the balance check passed and the points update was
      sent: the balance already lowered by the total, the backend one attempt further. */
  function Begin(w: World, throwsAt: set<nat>): Progress {
    var updated := w.page.points - w.page.total;
    Progress(World(w.page.(points := updated), Perform(w.server, UpdateUserPoints(updated), throwsAt)), false)
  }

  /** The end of a walk: the error alert after a throw, or the success alert and the reset
      of the selection and its total. */
  function Conclude(p: Progress): World {
    var q := p.world.page;
    if p.failed then World(q.(alerts := q.alerts + [ExchangeFailed]), p.world.server)
    else World(q.(selected := [], total := 0, alerts := q.alerts + [ExchangeSucceeded]), p.world.server)
  }

  /** The state after the exchange button is pressed. */
  function AfterExchange(w: World, throwsAt: set<nat>): World {
    var page := w.page;
    if page.total > page.points then
      World(page.(alerts := page.alerts + [InsufficientPoints]), w.server)
    else if w.server.attempts in throwsAt then
      World(page.(alerts := page.alerts + [ExchangeFailed]),
            Perform(w.server, UpdateUserPoints(page.points - page.total), throwsAt))
    else
      Conclude(Settle(Begin(w, throwsAt), page.selected, throwsAt))
  }

  /** The exchange button is enabled when something is selected and the balance covers it. */
  function CanExchange(p: Page): bool {
    !(|p.selected| == 0 || p.total > p.points)
  }

  // ---------------------------------------------------------------------------------------
  // The walk over the selection

  /** Once a call has thrown, the rest of the selection changes nothing. */
  lemma {:induction false} SettleStopsAfterFailure(p: Progress, selection: seq<Benefit>, m: nat, throwsAt: set<nat>)
    requires m <= |selection|
    requires Settle(p, selection[..m], throwsAt).failed
    ensures Settle(p, selection, throwsAt) == Settle(p, selection[..m], throwsAt)
  {
    if m < |selection| {
      var init := selection[..|selection| - 1];
      assert init[..m] == selection[..m];
      SettleStopsAfterFailure(p, init, m, throwsAt);
    } else {
      assert selection[..m] == selection;
    }
  }

  /** The walk over one more entry is one more step. */
  lemma SettleSnoc(p: Progress, selection: seq<Benefit>, i: nat, throwsAt: set<nat>)
    requires i < |selection|
    ensures Settle(p, selection[..i + 1], throwsAt) == Step(Settle(p, selection[..i], throwsAt), selection[i], throwsAt)
  {
    assert selection[..i + 1][..i] == selection[..i];
  }

  lemma BenefitCallsAppend(updates: seq<Benefit>, u: Benefit)
    ensures BenefitCalls(updates + [u]) == BenefitCalls(updates) + [UpdateBenefit(u)]
  {
    assert (updates + [u])[..|updates|] == updates;
  }

  /** The records the walk sends grow by at most one per entry. */
  lemma StockUpdatesSnoc(selection: seq<Benefit>)
    requires selection != []
    ensures var x := selection[|selection| - 1];
            StockUpdates(selection) ==
            StockUpdates(selection[..|selection| - 1]) + (if x.quantidade > 0 then [Decremented(x)] else [])
  {
  }

  /** One more request, attempt `t`, after `n` that all completed: the count stays at `n`
      when it throws and becomes `m = n + 1` when it does not. */
  lemma FirstThrowExtend(a: nat, n: nat, m: nat, t: nat, throwsAt: set<nat>)
    requires m == n + 1 && t == a + n && FirstThrow(a, n, throwsAt) == n
    ensures t in throwsAt ==> FirstThrow(a, m, throwsAt) == n
    ensures t !in throwsAt ==> FirstThrow(a, m, throwsAt) == m
  {
  }

  /** After a throw, the count does not move. */
  lemma FirstThrowStays(a: nat, n: nat, m: nat, throwsAt: set<nat>)
    requires m == n + 1 && FirstThrow(a, n, throwsAt) < n
    ensures FirstThrow(a, m, throwsAt) == FirstThrow(a, n, throwsAt)
  {
  }

  /** One step of the walk at the backend: if before it the backend held the first `k0` of
      `ups0` (`k0` counted by FirstThrow), then after it the same holds for `ups0` extended by
      the entry's record, if any. */
  lemma StepServer(q0: Progress, x: Benefit, log0: seq<Call>, a: nat, ups0: seq<Benefit>, throwsAt: set<nat>)
    requires q0.failed == (FirstThrow(a, |ups0|, throwsAt) < |ups0|)
    requires q0.world.server.log == log0 + BenefitCalls(ups0[..FirstThrow(a, |ups0|, throwsAt)])
    requires q0.world.server.attempts == a + FirstThrow(a, |ups0|, throwsAt) + (if q0.failed then 1 else 0)
    ensures var q := Step(q0, x, throwsAt);
            var ups := ups0 + (if x.quantidade > 0 then [Decremented(x)] else []);
            var k := FirstThrow(a, |ups|, throwsAt);
            && q.failed == (k < |ups|)
            && q.world.server.log == log0 + BenefitCalls(ups[..k])
            && q.world.server.attempts == a + k + (if q.failed then 1 else 0)
  {
    if x.quantidade <= 0 {
      StepServerSkip(q0, x, ups0, throwsAt);
    } else if q0.failed {
      StepServerAfterThrow(q0, x, a, ups0, throwsAt);
    } else {
      assert ups0[..FirstThrow(a, |ups0|, throwsAt)] == ups0;
      StepServerSend(q0, x, log0, a, ups0, throwsAt);
    }
  }

  /** StepServer for an entry without stock: nothing is sent. */
  lemma StepServerSkip(q0: Progress, x: Benefit, ups0: seq<Benefit>, throwsAt: set<nat>)
    requires x.quantidade <= 0
    ensures Step(q0, x, throwsAt).failed == q0.failed
    ensures Step(q0, x, throwsAt).world.server == q0.world.server
    ensures ups0 + (if x.quantidade > 0 then [Decremented(x)] else []) == ups0
  {
  }

  /** StepServer after a throw: the step changes nothing and the count does not move. */
  lemma StepServerAfterThrow(q0: Progress, x: Benefit, a: nat, ups0: seq<Benefit>, throwsAt: set<nat>)
    requires q0.failed && x.quantidade > 0
    requires FirstThrow(a, |ups0|, throwsAt) < |ups0|
    ensures Step(q0, x, throwsAt) == q0
    ensures var ups := ups0 + [Decremented(x)];
            var k0 := FirstThrow(a, |ups0|, throwsAt);
            && FirstThrow(a, |ups|, throwsAt) == k0
            && ups[..k0] == ups0[..k0]
  {
    var ups := ups0 + [Decremented(x)];
    FirstThrowStays(a, |ups0|, |ups|, throwsAt);
    var k0 := FirstThrow(a, |ups0|, throwsAt);
    assert ups[..k0] == ups0[..k0];
  }

  /** StepServer for an in-stock entry when nothing has thrown yet: the record is sent, and
      either the backend takes it or this is the first throw. */
  lemma StepServerSend(q0: Progress, x: Benefit, log0: seq<Call>, a: nat, ups0: seq<Benefit>, throwsAt: set<nat>)
    requires !q0.failed && x.quantidade > 0
    requires FirstThrow(a, |ups0|, throwsAt) == |ups0|
    requires q0.world.server.log == log0 + BenefitCalls(ups0)
    requires q0.world.server.attempts == a + |ups0|
    ensures var q := Step(q0, x, throwsAt);
            var ups := ups0 + [Decremented(x)];
            var k := FirstThrow(a, |ups|, throwsAt);
            && q.failed == (k < |ups|)
            && q.world.server.log == log0 + BenefitCalls(ups[..k])
            && q.world.server.attempts == a + k + (if q.failed then 1 else 0)
  {
    var q := Step(q0, x, throwsAt);
    var u := Decremented(x);
    var ups := ups0 + [u];
    var k := FirstThrow(a, |ups|, throwsAt);
    var s0 := q0.world.server;
    FirstThrowExtend(a, |ups0|, |ups|, s0.attempts, throwsAt);
    if s0.attempts in throwsAt {
      assert k == |ups0|;
      assert ups[..k] == ups0;
      assert q.failed && q.world.server == Server(s0.log, s0.attempts + 1);
    } else {
      assert k == |ups|;
      assert ups[..k] == ups;
      BenefitCallsAppend(ups0, u);
      assert !q.failed && q.world.server == Server(s0.log + [UpdateBenefit(u)], s0.attempts + 1);
    }
  }

  /** What the walk over a selection does at the backend, when no call has thrown before it:
      with `ups` the records it means to send and `k` how many of them complete before the
      first throw, the walk fails exactly when one threw, the backend holds exactly the first
      `k` records, and one more attempt is counted when a record threw. */
  lemma {:induction false} SettleOutcome(p: Progress, selection: seq<Benefit>, throwsAt: set<nat>)
    requires !p.failed
    ensures var q := Settle(p, selection, throwsAt);
            var ups := StockUpdates(selection);
            var k := FirstThrow(p.world.server.attempts, |ups|, throwsAt);
            && q.failed == (k < |ups|)
            && q.world.server.log == p.world.server.log + BenefitCalls(ups[..k])
            && q.world.server.attempts == p.world.server.attempts + k + (if q.failed then 1 else 0)
  {
    if selection == [] {
      assert StockUpdates(selection)[..0] == [];
      assert p.world.server.log + [] == p.world.server.log;
    } else {
      var init := selection[..|selection| - 1];
      SettleOutcome(p, init, throwsAt);
      StockUpdatesSnoc(selection);
      StepServer(Settle(p, init, throwsAt), selection[|selection| - 1], p.world.server.log,
                 p.world.server.attempts, StockUpdates(init), throwsAt);
    }
  }

  /** One step of the walk on the rows, in the same terms as StepServer. */
  lemma StepRows(q0: Progress, x: Benefit, rows0: seq<Benefit>, a: nat, ups0: seq<Benefit>, throwsAt: set<nat>)
    requires q0.failed == (FirstThrow(a, |ups0|, throwsAt) < |ups0|)
    requires q0.world.server.attempts == a + FirstThrow(a, |ups0|, throwsAt) + (if q0.failed then 1 else 0)
    requires q0.world.page.rows == ApplyAll(rows0, ups0[..FirstThrow(a, |ups0|, throwsAt)])
    ensures var ups := ups0 + (if x.quantidade > 0 then [Decremented(x)] else []);
            Step(q0, x, throwsAt).world.page.rows == ApplyAll(rows0, ups[..FirstThrow(a, |ups|, throwsAt)])
  {
    var k0 := FirstThrow(a, |ups0|, throwsAt);
    if x.quantidade <= 0 {
      assert ups0 + [] == ups0;
    } else {
      var ups := ups0 + [Decremented(x)];
      if q0.failed {
        FirstThrowStays(a, |ups0|, |ups|, throwsAt);
        assert ups[..k0] == ups0[..k0];
      } else {
        FirstThrowExtend(a, |ups0|, |ups|, q0.world.server.attempts, throwsAt);
        assert ups0[..k0] == ups0;
        if q0.world.server.attempts in throwsAt {
          assert ups[..|ups0|] == ups0;
        } else {
          assert ups[..|ups|] == ups;
          assert ups[..|ups| - 1] == ups0;
        }
      }
    }
  }

  /** What the walk does to the rows: exactly the `k` records the backend accepted are
      applied, in order, and nothing is rolled back. */
  lemma {:induction false} SettleRows(p: Progress, selection: seq<Benefit>, throwsAt: set<nat>)
    requires !p.failed
    ensures var ups := StockUpdates(selection);
            Settle(p, selection, throwsAt).world.page.rows ==
            ApplyAll(p.world.page.rows, ups[..FirstThrow(p.world.server.attempts, |ups|, throwsAt)])
  {
    if selection == [] {
      assert StockUpdates(selection)[..0] == [];
    } else {
      var init := selection[..|selection| - 1];
      SettleOutcome(p, init, throwsAt);
      SettleRows(p, init, throwsAt);
      StockUpdatesSnoc(selection);
      StepRows(Settle(p, init, throwsAt), selection[|selection| - 1], p.world.page.rows,
               p.world.server.attempts, StockUpdates(init), throwsAt);
    }
  }

  /** What the walk does to the rest of the page: the selection, total and balance are
      untouched, and the only alerts added are out-of-stock ones, all of them in order when
      nothing threw. */
  lemma {:induction false} SettlePageOutcome(p: Progress, selection: seq<Benefit>, throwsAt: set<nat>)
    requires !p.failed
    ensures var q := Settle(p, selection, throwsAt);
            && q.world.page.selected == p.world.page.selected
            && q.world.page.total == p.world.page.total
            && q.world.page.points == p.world.page.points
            && p.world.page.alerts <= q.world.page.alerts
            && (forall j :: |p.world.page.alerts| <= j < |q.world.page.alerts| ==> q.world.page.alerts[j].OutOfStock?)
            && (!q.failed ==> q.world.page.alerts == p.world.page.alerts + SkipAlerts(selection))
  {
    if selection == [] {
      assert p.world.page.alerts + [] == p.world.page.alerts;
    } else {
      var init := selection[..|selection| - 1];
      SettlePageOutcome(p, init, throwsAt);
      assert Settle(p, selection, throwsAt) == Step(Settle(p, init, throwsAt), selection[|selection| - 1], throwsAt);
    }
  }

  // ---------------------------------------------------------------------------------------
  // The exchange

  /** A total above the balance is refused before any request: backend, rows, selection,
      total and balance all stay as they were, and the user is told why. */
  lemma RejectedExchangeChangesNothing(w: World, throwsAt: set<nat>)
    requires w.page.total > w.page.points
    ensures AfterExchange(w, throwsAt).server == w.server
    ensures AfterExchange(w, throwsAt).page == w.page.(alerts := w.page.alerts + [InsufficientPoints])
  {
  }

  /** If the points update itself throws, nothing is persisted and nothing local changes but
      the error alert: the balance is not deducted and the selection is kept. */
  lemma PointsUpdateThrows(w: World, throwsAt: set<nat>)
    requires w.page.total <= w.page.points && w.server.attempts in throwsAt
    ensures AfterExchange(w, throwsAt).server.log == w.server.log
    ensures AfterExchange(w, throwsAt).page == w.page.(alerts := w.page.alerts + [ExchangeFailed])
  {
  }

  /** The exchange once the balance check passed and the points update completed. With
      `ups` the stock records for the selection and `k` how many complete before a throw:
      the new balance is the old one minus the total, it is persisted first, the first `k`
      stock records follow it and are reflected in the rows (no rollback), and the selection
      is cleared exactly when all of them completed. */
  lemma {:induction false} ExchangeSettlement(w: World, throwsAt: set<nat>)
    requires w.page.total <= w.page.points && w.server.attempts !in throwsAt
    ensures var r := AfterExchange(w, throwsAt);
            var updated := w.page.points - w.page.total;
            var ups := StockUpdates(w.page.selected);
            var k := FirstThrow(w.server.attempts + 1, |ups|, throwsAt);
            && updated >= 0
            && r.page.points == updated
            && r.server.attempts == w.server.attempts + 1 + k + (if k < |ups| then 1 else 0)
            && r.server.log == w.server.log + [UpdateUserPoints(updated)] + BenefitCalls(ups[..k])
            && r.page.rows == ApplyAll(w.page.rows, ups[..k])
            && (k == |ups| ==> r.page.selected == [] && r.page.total == 0
                               && r.page.alerts == w.page.alerts + SkipAlerts(w.page.selected) + [ExchangeSucceeded])
            && (k < |ups| ==> r.page.selected == w.page.selected && r.page.total == w.page.total
                              && |r.page.alerts| > 0 && r.page.alerts[|r.page.alerts| - 1] == ExchangeFailed)
  {
    var updated := w.page.points - w.page.total;
    var p := Begin(w, throwsAt);
    var q := Settle(p, w.page.selected, throwsAt);
    assert AfterExchange(w, throwsAt) == Conclude(q);
    assert p.world.server == Server(w.server.log + [UpdateUserPoints(updated)], w.server.attempts + 1);
    assert p.world.page == w.page.(points := updated);
    SettleOutcome(p, w.page.selected, throwsAt);
    SettleRows(p, w.page.selected, throwsAt);
    SettlePageOutcome(p, w.page.selected, throwsAt);
  }

  /** Whatever throws, what the backend received is the points update followed only by stock
      updates: the balance is always persisted before any benefit. */
  lemma PointsPersistedFirst(w: World, throwsAt: set<nat>)
    ensures var r := AfterExchange(w, throwsAt);
            && w.server.log <= r.server.log
            && (|r.server.log| > |w.server.log| ==>
                  r.server.log[|w.server.log|] == UpdateUserPoints(w.page.points - w.page.total)
                  && forall j :: |w.server.log| < j < |r.server.log| ==> r.server.log[j].UpdateBenefit?)
  {
    if w.page.total <= w.page.points && w.server.attempts !in throwsAt {
      ExchangeSettlement(w, throwsAt);
    }
  }

  /** The selection and the total stay consistent: if the total was the sum of the selection
      before the exchange, it still is afterwards, whatever throws. */
  lemma ExchangeKeepsTotal(w: World, throwsAt: set<nat>)
    requires w.page.total == Total(w.page.selected)
    ensures AfterExchange(w, throwsAt).page.total == Total(AfterExchange(w, throwsAt).page.selected)
  {
    if w.page.total <= w.page.points && w.server.attempts !in throwsAt {
      ExchangeSettlement(w, throwsAt);
    }
  }

  /** The stock written into the rows when every record was accepted (unique identifiers in
      the selection): a row with the identifier of an in-stock entry takes that entry's
      snapshot stock minus one, whatever the row held; every other row is untouched. */
  lemma {:induction false} StockAfterSettlement(rows: seq<Benefit>, selection: seq<Benefit>)
    requires UniqueIds(selection)
    ensures var r := ApplyAll(rows, StockUpdates(selection));
            && |r| == |rows|
            && (forall k, i :: 0 <= k < |rows| && 0 <= i < |selection| && selection[i].id == rows[k].id ==>
                  r[k] == if selection[i].quantidade > 0 then rows[k].(quantidade := selection[i].quantidade - 1) else rows[k])
            && (forall k :: 0 <= k < |rows| && !Selected(selection, rows[k].id) ==> r[k] == rows[k])
  {
    if selection != [] {
      var init := selection[..|selection| - 1];
      var x := selection[|selection| - 1];
      assert UniqueIds(init);
      StockAfterSettlement(rows, init);
      var r0 := ApplyAll(rows, StockUpdates(init));
      var r := ApplyAll(rows, StockUpdates(selection));
      StockStep(rows, init, x);
      assert !Selected(init, x.id);
      forall k, i | 0 <= k < |rows| && 0 <= i < |selection| && selection[i].id == rows[k].id
        ensures r[k] == if selection[i].quantidade > 0 then rows[k].(quantidade := selection[i].quantidade - 1) else rows[k]
      {
        if i < |selection| - 1 {
          assert selection[i] == init[i];
        }
      }
      forall k | 0 <= k < |rows| && !Selected(selection, rows[k].id) ensures r[k] == rows[k] {
        assert x.id != rows[k].id;
      }
    }
  }

  /** One more entry in the selection changes the rows by at most that entry's record. */
  lemma StockStep(rows: seq<Benefit>, init: seq<Benefit>, x: Benefit)
    ensures var r0 := ApplyAll(rows, StockUpdates(init));
            var r := ApplyAll(rows, StockUpdates(init + [x]));
            && |r| == |r0| == |rows|
            && forall k :: 0 <= k < |rows| ==>
                 r[k] == if x.quantidade > 0 && rows[k].id == x.id then r0[k].(quantidade := x.quantidade - 1) else r0[k]
  {
    var ups0 := StockUpdates(init);
    assert (init + [x])[..|init|] == init;
    if x.quantidade > 0 {
      assert StockUpdates(init + [x]) == ups0 + [Decremented(x)];
      assert (ups0 + [Decremented(x)])[..|ups0|] == ups0;
    }
  }

  /** A fully successful exchange (no request throws) with unique identifiers in the selection:
      the balance loses the whole total, out-of-stock entries included; each row selected with
      stock loses one unit from its snapshot; rows selected without stock and rows not selected
      are unchanged; the selection and total are reset. */
  lemma ExchangeSucceeds(w: World, throwsAt: set<nat>)
    requires w.page.total <= w.page.points && w.page.total == Total(w.page.selected)
    requires UniqueIds(w.page.selected)
    requires forall j :: w.server.attempts <= j <= w.server.attempts + |StockUpdates(w.page.selected)| ==> j !in throwsAt
    ensures var r := AfterExchange(w, throwsAt);
            && r.page.points == w.page.points - Total(w.page.selected)
            && r.page.selected == [] && r.page.total == 0
            && |r.page.rows| == |w.page.rows|
            && (forall k, i :: 0 <= k < |w.page.rows| && 0 <= i < |w.page.selected| && w.page.selected[i].id == w.page.rows[k].id ==>
                  r.page.rows[k] == if w.page.selected[i].quantidade > 0
                                    then w.page.rows[k].(quantidade := w.page.selected[i].quantidade - 1)
                                    else w.page.rows[k])
            && (forall k :: 0 <= k < |w.page.rows| && !Selected(w.page.selected, w.page.rows[k].id) ==> r.page.rows[k] == w.page.rows[k])
            && r.page.alerts[|r.page.alerts| - 1] == ExchangeSucceeded
  {
    var ups := StockUpdates(w.page.selected);
    assert w.server.attempts !in throwsAt;
    var k := FirstThrow(w.server.attempts + 1, |ups|, throwsAt);
    ExchangeSettlement(w, throwsAt);
    assert ups[..k] == ups;
    StockAfterSettlement(w.page.rows, w.page.selected);
  }

  /** When the enabled button is pressed the balance check passes: the points update is sent. */
  lemma EnabledButtonPassesCheck(w: World, throwsAt: set<nat>)
    requires CanExchange(w.page)
    ensures AfterExchange(w, throwsAt).server.attempts > w.server.attempts
    ensures w.server.attempts !in throwsAt ==>
              |AfterExchange(w, throwsAt).server.log| > |w.server.log| &&
              AfterExchange(w, throwsAt).server.log[|w.server.log|] == UpdateUserPoints(w.page.points - w.page.total)
  {
    if w.server.attempts !in throwsAt {
      ExchangeSettlement(w, throwsAt);
    } else {
      PointsUpdateThrows(w, throwsAt);
    }
  }

  /** The button is disabled exactly when pressing it would be refused or there is nothing to
      exchange: with a non-empty selection, a disabled button means the exchange is refused. */
  lemma DisabledButtonMeansRefusal(w: World, throwsAt: set<nat>)
    requires !CanExchange(w.page) && |w.page.selected| > 0
    ensures AfterExchange(w, throwsAt) == World(w.page.(alerts := w.page.alerts + [InsufficientPoints]), w.server)
  {
  }

  /** Why the button checks for an empty selection: the exchange itself does not, and with
      nothing selected it would still send a points update for the unchanged balance. */
  lemma EmptySelectionStillSendsPoints(w: World, throwsAt: set<nat>)
    requires w.page.selected == [] && w.page.total == Total(w.page.selected) && w.page.points >= 0
    requires w.server.attempts !in throwsAt
    ensures AfterExchange(w, throwsAt).server.log == w.server.log + [UpdateUserPoints(w.page.points)]
  {
  }

  /** The table keeps its own selection after an exchange, holding the snapshots taken before
      it. Exchanging benefit `a`, then clicking `b` and exchanging again, reports `a` back with
      its old snapshot: `a` is charged twice, but the second request writes the same stock as
      the first, so its stock falls by one unit only. */
  lemma StaleTableSelection(a: Benefit, b: Benefit, points: int)
    requires a.id != b.id && a.quantidade > 0 && b.quantidade > 0
    requires a.pontos >= 0 && b.pontos >= 0 && points >= 2 * a.pontos + b.pontos
    ensures var w0 := World(Page([a, b], [a], a.pontos, points, []), Server([], 0));
            var w1 := AfterExchange(w0, {});
            var tableSelection := ToggleRow([a], b);
            var w2 := World(w1.page.(selected := tableSelection, total := Total(tableSelection)), w1.server);
            var w3 := AfterExchange(w2, {});
            && tableSelection == [a, b]
            && |w1.page.rows| == 2 && w1.page.rows[0].quantidade == a.quantidade - 1
            && |w3.page.rows| == 2 && w3.page.rows[0].quantidade == a.quantidade - 1
            && w3.page.points == points - 2 * a.pontos - b.pontos
  {
    var w0 := World(Page([a, b], [a], a.pontos, points, []), Server([], 0));
    assert Total([a]) == a.pontos by { assert [a][..0] == []; }
    assert !Selected([a], b.id);
    ExchangeSucceeds(w0, {});
    var w1 := AfterExchange(w0, {});
    assert w1.page.rows[0] == a.(quantidade := a.quantidade - 1) by {
      assert w0.page.selected[0].id == w0.page.rows[0].id;
    }
    var tableSelection := ToggleRow([a], b);
    assert tableSelection == [a, b];
    assert Total([a, b]) == a.pontos + b.pontos by { assert [a, b][..1] == [a]; }
    var w2 := World(w1.page.(selected := tableSelection, total := Total(tableSelection)), w1.server);
    ExchangeSucceeds(w2, {});
    assert w2.page.selected[0].id == w2.page.rows[0].id;
  }

  /** The page's test fixture, benefits of 100 and 200 points, both in stock, selected
      against a balance of 300 and exchanged with no request throwing. The balance is
      persisted as 0, then both stock records; the rows lose one unit each, and the selection
      is reset. */
  lemma TwoBenefitExchange(a: Benefit, b: Benefit)
    requires a.id != b.id && a.pontos == 100 && b.pontos == 200
    requires a.quantidade > 0 && b.quantidade > 0
    ensures var r := AfterExchange(World(Page([a, b], [a, b], 300, 300, []), Server([], 0)), {});
            && r.page == Page([Decremented(a), Decremented(b)], [], 0, 0, [ExchangeSucceeded])
            && r.server == Server([UpdateUserPoints(0), UpdateBenefit(Decremented(a)), UpdateBenefit(Decremented(b))], 3)
  {
    var w := World(Page([a, b], [a, b], 300, 300, []), Server([], 0));
    var da, db := Decremented(a), Decremented(b);
    var p0 := Progress(World(Page([a, b], [a, b], 300, 0, []), Server([UpdateUserPoints(0)], 1)), false);
    var p1 := Progress(World(Page([da, b], [a, b], 300, 0, []), Server([UpdateUserPoints(0), UpdateBenefit(da)], 2)), false);
    var p2 := Progress(World(Page([da, db], [a, b], 300, 0, []), Server([UpdateUserPoints(0), UpdateBenefit(da), UpdateBenefit(db)], 3)), false);
    assert Begin(w, {}) == p0;
    assert Settle(p0, [a, b][..1], {}) == p1 by {
      SettleSnoc(p0, [a, b], 0, {});
      assert [a, b][..0] == [];
      assert ApplyUpdate([a, b], da) == [da, b];
    }
    assert Settle(p0, [a, b], {}) == p2 by {
      SettleSnoc(p0, [a, b], 1, {});
      assert [a, b][..2] == [a, b];
      assert ApplyUpdate([da, b], db) == [da, db];
    }
  }
}
