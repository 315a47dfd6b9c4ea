/** The benefit table of the points-exchange page: its rows, the selection the user builds
    by clicking rows, the running total of that selection, and the fixed-size pages the table
    shows. Everything here is pure; the page's state and the settlement are in Settlement and ExchangePage. */
module BenefitTable {

  /** One row of the table. `pontos` is what the benefit costs, `quantidade` the stock left. */
  datatype Benefit = Benefit(id: string, nome: string, data: string, endereco: string,
                             pontos: int, quantidade: int)

  /** The table shows this many rows per page. */
  const RowsPerPage: nat := 4

  function Min(a: int, b: int): int { if a <= b then a else b }

  // ---------------------------------------------------------------------------------------
  // Pagination

  /** `Array.prototype.slice(start, end)` for non-negative arguments: both bounds are clamped
      to the length, and a range that ends before it starts is empty. */
  function Slice<T>(s: seq<T>, start: nat, end: nat): (r: seq<T>)
    ensures |r| == if start < end && start < |s| then Min(end, |s|) - start else 0
    ensures forall k :: 0 <= k < |r| ==> r[k] == s[start + k]
  {
    var lo := Min(start, |s|);
    var hi := Min(end, |s|);
    if lo < hi then s[lo..hi] else []
  }

  /** The rows the table shows on page `page` (counted from 0): never more than a page's
      worth, and a contiguous run of `rows` in their own order starting at `page * 4`. */
  function DisplayedRows(rows: seq<Benefit>, page: nat): (r: seq<Benefit>)
    ensures |r| <= RowsPerPage
    ensures |r| == if page * RowsPerPage < |rows| then Min(RowsPerPage, |rows| - page * RowsPerPage) else 0
    ensures forall k :: 0 <= k < |r| ==> r[k] == rows[page * RowsPerPage + k]
  {
    Slice(rows, page * RowsPerPage, page * RowsPerPage + RowsPerPage)
  }

  /** The number of non-empty pages. */
  function PageCount(rows: seq<Benefit>): nat {
    (|rows| + RowsPerPage - 1) / RowsPerPage
  }

  /** Pages 0 .. n-1, one after the other. */
  function FirstPages(rows: seq<Benefit>, n: nat): seq<Benefit> {
    if n == 0 then [] else FirstPages(rows, n - 1) + DisplayedRows(rows, n - 1)
  }

  lemma {:induction false} FirstPagesArePrefix(rows: seq<Benefit>, n: nat)
    ensures FirstPages(rows, n) == rows[..Min(n * RowsPerPage, |rows|)]
  {
    if n > 0 {
      FirstPagesArePrefix(rows, n - 1);
      var lo := Min((n - 1) * RowsPerPage, |rows|);
      var hi := Min(n * RowsPerPage, |rows|);
      assert DisplayedRows(rows, n - 1) == rows[lo..hi];
      assert rows[..lo] + rows[lo..hi] == rows[..hi];
    }
  }

  /** Paging loses no row and repeats none: the non-empty pages, read in order, are exactly
      `rows`, every page before PageCount shows something and every page from it on is empty. */
  lemma PagesCoverRows(rows: seq<Benefit>)
    ensures FirstPages(rows, PageCount(rows)) == rows
    ensures forall p: nat :: p < PageCount(rows) ==> DisplayedRows(rows, p) != []
    ensures forall p: nat :: p >= PageCount(rows) ==> DisplayedRows(rows, p) == []
  {
    FirstPagesArePrefix(rows, PageCount(rows));
    assert PageCount(rows) * RowsPerPage >= |rows|;
    assert rows[..|rows|] == rows;
  }

  // ---------------------------------------------------------------------------------------
  // Selection

  /** Whether the selection holds an entry with identifier `id`. Rows are identified by their
      `_id` throughout the model. */
  predicate Selected(selection: seq<Benefit>, id: string) {
    exists k :: 0 <= k < |selection| && selection[k].id == id
  }

  predicate UniqueIds(s: seq<Benefit>) {
    forall i, j :: 0 <= i < j < |s| ==> s[i].id != s[j].id
  }

  /** The selection with every entry whose identifier is `id` filtered out. */
  function RemoveId(selection: seq<Benefit>, id: string): (r: seq<Benefit>)
    ensures !Selected(r, id)
    ensures forall k :: 0 <= k < |r| ==> r[k] in selection
    ensures forall x :: x in selection && x.id != id ==> x in r
    ensures Selected(selection, id) ==> |r| < |selection|
    ensures !Selected(selection, id) ==> r == selection
  {
    if selection == [] then []
    else
      var tail := RemoveId(selection[1..], id);
      assert selection == [selection[0]] + selection[1..];
      SelectedPrepend(selection[0], selection[1..], id);
      if selection[0].id == id then tail
      else
        SelectedPrepend(selection[0], tail, id);
        [selection[0]] + tail
  }

  /** An entry is selected after `x` is put in front exactly when it is `x` or was selected. */
  lemma SelectedPrepend(x: Benefit, s: seq<Benefit>, id: string)
    ensures Selected([x] + s, id) <==> x.id == id || Selected(s, id)
  {
    if Selected([x] + s, id) && x.id != id {
      var k :| 0 <= k < |[x] + s| && ([x] + s)[k].id == id;
      assert s[k - 1].id == id;
    }
    if x.id == id {
      assert ([x] + s)[0].id == id;
    }
    if Selected(s, id) {
      var k :| 0 <= k < |s| && s[k].id == id;
      assert ([x] + s)[k + 1].id == id;
    }
  }

  lemma {:induction false} RemoveIdAppend(a: seq<Benefit>, b: seq<Benefit>, id: string)
    ensures RemoveId(a + b, id) == RemoveId(a, id) + RemoveId(b, id)
  {
    if a == [] {
      assert a + b == b;
    } else {
      assert (a + b)[1..] == a[1..] + b;
      RemoveIdAppend(a[1..], b, id);
    }
  }

  lemma SplitAt<T>(s: seq<T>, i: int)
    requires 0 <= i < |s|
    ensures s == s[..i] + ([s[i]] + s[i + 1..])
  {
  }

  lemma MultisetRemoveAt<T>(s: seq<T>, i: int)
    requires 0 <= i < |s|
    ensures multiset(s[..i] + s[i + 1..]) == multiset(s) - multiset{s[i]}
  {
    SplitAt(s, i);
  }

  /** With unique identifiers, filtering out the identifier of entry i removes that entry alone. */
  lemma RemoveIdOfUnique(s: seq<Benefit>, i: int)
    requires UniqueIds(s) && 0 <= i < |s|
    ensures RemoveId(s, s[i].id) == s[..i] + s[i + 1..]
  {
    var id := s[i].id;
    var pre, post := s[..i], s[i + 1..];
    assert !Selected(pre, id);
    assert !Selected(post, id) by {
      assert forall k :: 0 <= k < |post| ==> post[k] == s[i + 1 + k];
    }
    assert RemoveId([s[i]], id) == [] by {
      assert [s[i]][1..] == [];
    }
    RemoveIdAppend([s[i]], post, id);
    assert RemoveId([s[i]] + post, id) == post;
    SplitAt(s, i);
    RemoveIdAppend(pre, [s[i]] + post, id);
  }

  /** A click on a row: an unselected row is appended at the end of the selection, a selected
      one is dropped together with every other entry that has its identifier. */
  function ToggleRow(selection: seq<Benefit>, row: Benefit): (r: seq<Benefit>)
    ensures Selected(r, row.id) <==> !Selected(selection, row.id)
    ensures forall x: Benefit :: x.id != row.id ==> (x in r <==> x in selection)
    ensures !Selected(selection, row.id) ==> r == selection + [row]
  {
    if Selected(selection, row.id) then RemoveId(selection, row.id)
    else
      assert Selected(selection + [row], row.id) by {
        assert (selection + [row])[|selection|].id == row.id;
      }
      selection + [row]
  }

  /** Clicking an unselected row twice gives back the selection one started from. */
  lemma ToggleTwiceRestores(selection: seq<Benefit>, row: Benefit)
    requires !Selected(selection, row.id)
    ensures ToggleRow(ToggleRow(selection, row), row) == selection
  {
    RemoveIdAppend(selection, [row], row.id);
    assert [row][1..] == [];
    assert selection + [] == selection;
  }

  /** Clicking a selected entry twice (unique identifiers) moves it to the end: the same
      entries as before, in another order. */
  lemma ToggleTwiceSelected(selection: seq<Benefit>, i: int)
    requires UniqueIds(selection) && 0 <= i < |selection|
    ensures multiset(ToggleRow(ToggleRow(selection, selection[i]), selection[i])) == multiset(selection)
  {
    var row := selection[i];
    RemoveIdOfUnique(selection, i);
    var rest := selection[..i] + selection[i + 1..];
    assert ToggleRow(selection, row) == rest;
    assert ToggleRow(rest, row) == rest + [row];
    MultisetRemoveAt(selection, i);
    assert multiset(rest + [row]) == multiset(rest) + multiset{row};
    assert row in multiset(selection);
  }

  lemma {:induction false} RemoveIdKeepsUniqueIds(s: seq<Benefit>, id: string)
    requires UniqueIds(s)
    ensures UniqueIds(RemoveId(s, id))
  {
    if s != [] {
      assert UniqueIds(s[1..]) by {
        assert forall k :: 0 <= k < |s[1..]| ==> s[1..][k] == s[k + 1];
      }
      RemoveIdKeepsUniqueIds(s[1..], id);
      if s[0].id != id {
        var t := RemoveId(s[1..], id);
        forall j | 0 <= j < |t| ensures t[j].id != s[0].id {
          assert t[j] in s[1..];
          var m :| 0 <= m < |s[1..]| && s[1..][m] == t[j];
          assert s[m + 1] == t[j];
        }
        ConsUniqueIds(s[0], t);
      }
    }
  }

  /** Putting in front an entry whose identifier the rest does not have keeps identifiers unique. */
  lemma ConsUniqueIds(x: Benefit, t: seq<Benefit>)
    requires UniqueIds(t)
    requires forall j :: 0 <= j < |t| ==> t[j].id != x.id
    ensures UniqueIds([x] + t)
  {
    var r := [x] + t;
    forall i, j | 0 <= i < j < |r| ensures r[i].id != r[j].id {
      assert r[j] == t[j - 1];
      if i > 0 {
        assert r[i] == t[i - 1];
      }
    }
  }

  /** Clicking rows never introduces a second entry with the same identifier. */
  lemma ToggleKeepsUniqueIds(selection: seq<Benefit>, row: Benefit)
    requires UniqueIds(selection)
    ensures UniqueIds(ToggleRow(selection, row))
  {
    if Selected(selection, row.id) {
      RemoveIdKeepsUniqueIds(selection, row.id);
    } else {
      var r := selection + [row];
      forall i, j | 0 <= i < j < |r| ensures r[i].id != r[j].id {
        if j == |selection| {
          assert r[i] == selection[i];
        }
      }
    }
  }

  // ---------------------------------------------------------------------------------------
  // Running total

  /** The running total: `reduce` adding each entry's `pontos` from left to right, from 0. */
  function Total(selection: seq<Benefit>): int {
    if selection == [] then 0
    else Total(selection[..|selection| - 1]) + selection[|selection| - 1].pontos
  }

  lemma {:induction false} TotalAppend(a: seq<Benefit>, b: seq<Benefit>)
    ensures Total(a + b) == Total(a) + Total(b)
  {
    if b == [] {
      assert a + b == a;
    } else {
      assert (a + b)[..|a + b| - 1] == a + b[..|b| - 1];
      TotalAppend(a, b[..|b| - 1]);
    }
  }

  /** Taking entry i out of a sequence takes exactly its points off the total. */
  lemma TotalRemoveAt(s: seq<Benefit>, i: int)
    requires 0 <= i < |s|
    ensures Total(s[..i] + s[i + 1..]) == Total(s) - s[i].pontos
  {
    var x := s[i];
    SplitAt(s, i);
    TotalAppend(s[..i], [x] + s[i + 1..]);
    TotalAppend([x], s[i + 1..]);
    TotalAppend(s[..i], s[i + 1..]);
    assert Total([x]) == x.pontos by { assert [x][..0] == []; }
  }

  /** The total depends only on which entries are selected, not on the order of the clicks. */
  lemma {:induction false} TotalPermutation(a: seq<Benefit>, b: seq<Benefit>)
    requires multiset(a) == multiset(b)
    ensures Total(a) == Total(b)
  {
    if a == [] {
      assert |b| == |multiset(b)| == 0;
    } else {
      var x := a[|a| - 1];
      var a' := a[..|a| - 1];
      MultisetRemoveAt(a, |a| - 1);
      assert a[|a|..] == [] && a' + [] == a';
      assert x in multiset(b);
      var i :| 0 <= i < |b| && b[i] == x;
      MultisetRemoveAt(b, i);
      TotalPermutation(a', b[..i] + b[i + 1..]);
      TotalRemoveAt(b, i);
    }
  }

  /** Selecting a row adds its points to the total. */
  lemma TotalAfterSelect(selection: seq<Benefit>, row: Benefit)
    requires !Selected(selection, row.id)
    ensures Total(ToggleRow(selection, row)) == Total(selection) + row.pontos
  {
    assert (selection + [row])[..|selection|] == selection;
  }

  /** Deselecting entry i (unique identifiers) takes exactly its points off the total. */
  lemma TotalAfterDeselect(selection: seq<Benefit>, i: int, row: Benefit)
    requires UniqueIds(selection) && 0 <= i < |selection| && selection[i].id == row.id
    ensures Total(ToggleRow(selection, row)) == Total(selection) - selection[i].pontos
  {
    RemoveIdOfUnique(selection, i);
    TotalRemoveAt(selection, i);
  }

  /** Two benefits worth 100 and 200 points give a total of 300. */
  lemma TotalOfTwoBenefits()
    ensures Total([Benefit("1", "Benefício A", "2023-01-01", "Endereço A", 100, 10),
                   Benefit("2", "Benefício B", "2023-01-02", "Endereço B", 200, 5)]) == 300
  {
  }

  /** Clicking two rows with different identifiers, one after the other, selects both in
      click order, and the total is the sum of their points. */
  lemma ClickTwoRows(a: Benefit, b: Benefit)
    requires a.id != b.id
    ensures ToggleRow([], a) == [a]
    ensures ToggleRow([a], b) == [a, b]
    ensures Total([a]) == a.pontos && Total([a, b]) == a.pontos + b.pontos
  {
    assert ToggleRow([], a) == [a] by {
      assert !Selected([], a.id);
      assert [] + [a] == [a];
    }
    assert ToggleRow([a], b) == [a, b] by {
      assert !Selected([a], b.id);
    }
    assert Total([a]) == a.pontos by {
      assert [a][..0] == [];
    }
    assert Total([a, b]) == a.pontos + b.pontos by {
      assert [a, b][..1] == [a];
    }
  }

  /** A click on a row whose record was replaced, say with a new stock, after it was selected:
      since rows are identified by `_id`, the click deselects the old entry. */
  lemma ClickUpdatedRow(a: Benefit, b: Benefit)
    requires b.id == a.id
    ensures ToggleRow([a], b) == []
  {
    assert Selected([a], b.id) by {
      assert [a][0].id == b.id;
    }
  }
}
