/** The exchange page as objects: the backend services it calls, the selectable table with
    its own selection and page number, and the page component that holds the rows, the
    selection it was told about, the running total and the user's balance. Each handler is
    proved against the functions of BenefitTable and Settlement. */
module ExchangePage {
  import opened BenefitTable
  import opened Settlement

  /** The two services the exchange uses, updateUserPoints and updateBenefit. Each request
      either completes or throws; the attempts that throw are fixed by `throwsAt`. */
  class Backend {
    const throwsAt: set<nat>
    var log: seq<Call>
    var attempts: nat

    constructor (throwsAt: set<nat>)
      ensures this.throwsAt == throwsAt && log == [] && attempts == 0
    {
      this.throwsAt := throwsAt;
      log := [];
      attempts := 0;
    }

    function State(): Server
      reads this
    {
      Server(log, attempts)
    }

    method UpdateUserPoints(pontos: int) returns (ok: bool)
      modifies this
      ensures ok == (old(attempts) !in throwsAt)
      ensures State() == Perform(old(State()), Call.UpdateUserPoints(pontos), throwsAt)
    {
      ok := attempts !in throwsAt;
      if ok {
        log := log + [Call.UpdateUserPoints(pontos)];
      }
      attempts := attempts + 1;
    }

    method UpdateBenefit(benefit: Benefit) returns (ok: bool)
      modifies this
      ensures ok == (old(attempts) !in throwsAt)
      ensures State() == Perform(old(State()), Call.UpdateBenefit(benefit), throwsAt)
    {
      ok := attempts !in throwsAt;
      if ok {
        log := log + [Call.UpdateBenefit(benefit)];
      }
      attempts := attempts + 1;
    }
  }

  /** The parent page component. */
  class Beneficios {
    var rows: seq<Benefit>
    var selectedRows: seq<Benefit>
    var totalPoints: int
    var points: int
    var alerts: seq<Alert>

    /** The running total is always the sum of the selection it was told about. */
    ghost predicate Valid()
      reads this
    {
      totalPoints == Total(selectedRows)
    }

    function State(): Page
      reads this
    {
      Page(rows, selectedRows, totalPoints, points, alerts)
    }

    constructor ()
      ensures Valid() && State() == Page([], [], 0, 0, [])
    {
      rows, selectedRows, totalPoints, points, alerts := [], [], 0, 0, [];
    }

    /** The benefit list arrives from the backend. */
    method ReceiveBenefits(benefits: seq<Benefit>)
      modifies this
      ensures State() == old(State()).(rows := benefits)
      ensures old(Valid()) ==> Valid()
    {
      rows := benefits;
    }

    /** The logged-in user's balance arrives from the backend. */
    method ReceiveBalance(pontos: int)
      modifies this
      ensures State() == old(State()).(points := pontos)
      ensures old(Valid()) ==> Valid()
    {
      points := pontos;
    }

    /** The table reports a new selection: it is stored and the total recomputed from it. */
    method HandleRowSelect(selected: seq<Benefit>)
      modifies this
      ensures State() == old(State()).(selected := selected, total := Total(selected))
      ensures Valid()
    {
      selectedRows := selected;
      totalPoints := Total(selected);
    }

    /** The exchange button's handler, proved against AfterExchange. */
    method HandleExchange(backend: Backend)
      modifies this, backend
      ensures World(State(), backend.State()) == AfterExchange(old(World(State(), backend.State())), backend.throwsAt)
      ensures old(Valid()) ==> Valid()
    {
      ghost var w := World(State(), backend.State());
      if totalPoints > points {
        alerts := alerts + [InsufficientPoints];
        return;
      }
      var updatedPoints := points - totalPoints;
      var ok := backend.UpdateUserPoints(updatedPoints);
      if !ok {
        alerts := alerts + [ExchangeFailed];
        return;
      }
      points := updatedPoints;
      assert Progress(World(State(), backend.State()), false) == Begin(w, backend.throwsAt);
      var failed := SettleSelection(backend);
      if failed {
        alerts := alerts + [ExchangeFailed];
        return;
      }
      alerts := alerts + [ExchangeSucceeded];
      totalPoints := 0;
      selectedRows := [];
    }

    /** The loop over the selection: each in-stock entry is sent with one unit less and, once
        accepted, written into the rows; an entry without stock raises an alert. The loop
        stops at the first request that throws and reports it. */
    method SettleSelection(backend: Backend) returns (failed: bool)
      modifies this, backend
      ensures Progress(World(State(), backend.State()), failed) ==
              Settle(old(Progress(World(State(), backend.State()), false)), old(selectedRows), backend.throwsAt)
      ensures selectedRows == old(selectedRows) && totalPoints == old(totalPoints)
    {
      ghost var start := Progress(World(State(), backend.State()), false);
      var i := 0;
      while i < |selectedRows|
        invariant 0 <= i <= |selectedRows|
        invariant selectedRows == old(selectedRows) && totalPoints == old(totalPoints)
        invariant Settle(start, selectedRows[..i], backend.throwsAt) ==
                  Progress(World(Page(rows, selectedRows, totalPoints, points, alerts), Server(backend.log, backend.attempts)), false)
      {
        var selected := selectedRows[i];
        SettleSnoc(start, selectedRows, i, backend.throwsAt);
        if selected.quantidade > 0 {
          var updatedBenefit := selected.(quantidade := selected.quantidade - 1);
          var ok := backend.UpdateBenefit(updatedBenefit);
          if !ok {
            SettleStopsAfterFailure(start, selectedRows, i + 1, backend.throwsAt);
            return true;
          }
          rows := ApplyUpdate(rows, updatedBenefit);
        } else {
          alerts := alerts + [OutOfStock(selected.nome)];
        }
        i := i + 1;
      }
      assert selectedRows[..i] == selectedRows;
      return false;
    }
  }

  /** The table component. It keeps a selection of its own, which the parent's exchange does
      not reset, and the number of the page it shows. */
  class SelectableTable {
    var selectedRows: seq<Benefit>
    var page: nat

    /** The selection never holds two entries with the same identifier. */
    ghost predicate Valid()
      reads this
    {
      UniqueIds(selectedRows)
    }

    constructor ()
      ensures selectedRows == [] && page == 0
      ensures Valid()
    {
      selectedRows, page := [], 0;
    }

    /** A click on a row toggles it in the table's selection and reports the new selection to
      the parent, which recomputes its total. */
    method HandleRowClick(row: Benefit, parent: Beneficios)
      modifies this, parent
      ensures selectedRows == ToggleRow(old(selectedRows), row) && page == old(page)
      ensures parent.State() == old(parent.State()).(selected := selectedRows, total := Total(selectedRows))
      ensures parent.Valid()
      ensures old(Valid()) ==> Valid() && UniqueIds(parent.selectedRows)
    {
      if Valid() {
        ToggleKeepsUniqueIds(selectedRows, row);
      }
      selectedRows := ToggleRow(selectedRows, row);
      parent.HandleRowSelect(selectedRows);
    }

    method HandleChangePage(newPage: nat)
      modifies this
      ensures page == newPage && selectedRows == old(selectedRows)
      ensures old(Valid()) ==> Valid()
    {
      page := newPage;
    }
  }

  /** A session on the page's test fixture: the page loads the fixture's benefits of 100 and
      200 points and a balance of 300, and the user clicks both rows. */
  method SelectTwoBenefits(a: Benefit, b: Benefit) returns (parent: Beneficios, table: SelectableTable)
    requires a.id != b.id && a.pontos == 100 && b.pontos == 200
    ensures fresh(parent) && fresh(table)
    ensures parent.State() == Page([a, b], [a, b], 300, 300, [])
    ensures table.selectedRows == [a, b] && table.page == 0
    ensures table.Valid() && UniqueIds(parent.selectedRows)
  {
    parent := new Beneficios();
    table := new SelectableTable();
    parent.ReceiveBenefits([a, b]);
    parent.ReceiveBalance(300);
    ClickTwoRows(a, b);
    table.HandleRowClick(a, parent);
    table.HandleRowClick(b, parent);
  }

  /** The same session continued: after the clicks the exchange runs with no request
      throwing. The balance ends at 0, both stocks lose one unit, the page's selection is
      reset while the table keeps its own. */
  method SuccessfulExchangeScenario(a: Benefit, b: Benefit)
    requires a.id != b.id && a.pontos == 100 && b.pontos == 200
    requires a.quantidade > 0 && b.quantidade > 0
  {
    var parent, table := SelectTwoBenefits(a, b);
    var backend := new Backend({});
    parent.HandleExchange(backend);
    TwoBenefitExchange(a, b);
    assert parent.points == 0;
    assert parent.selectedRows == [] && parent.totalPoints == 0;
    assert parent.rows == [a.(quantidade := a.quantidade - 1), b.(quantidade := b.quantidade - 1)];
    assert table.selectedRows == [a, b] && table.page == 0;
    assert backend.log == [Call.UpdateUserPoints(0), Call.UpdateBenefit(Decremented(a)), Call.UpdateBenefit(Decremented(b))];
  }
}
