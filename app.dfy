/** The table component's state and its event handlers.  Each handler
    copies the selected-id set, updates the copy with the source's loops,
    and then replaces the state fields; the loops are proved against the
    transitions of module Selection. */
module App {
  import opened Wrappers
  import opened Catalog
  import Paging
  import opened Selection

  /** The count typed into the bulk-selection input is acted on when it is
      truthy.  Only an absent count and zero are rejected; a negative count
      passes this test. */
  predicate CountGiven(c: Option<int>)
    ensures CountGiven(c) <==> c != None && c != Some(0)
  {
    c.Some? && Truthy(Num(c.value))
  }

  /** `rows.find(r => r.id === id)`: the first row with that id, if any. */
  method FindById(rows: seq<Row>, id: int) returns (found: Option<Row>)
    ensures found.None? <==> id !in IdsOf(rows)
    ensures found.Some? ==> exists k :: 0 <= k < |rows| && rows[k] == found.value && found.value.id == id
                                        && forall j :: 0 <= j < k ==> rows[j].id != id
  {
    IdsOfMembers(rows);
    var i := 0;
    while i < |rows|
      invariant 0 <= i <= |rows|
      invariant forall j :: 0 <= j < i ==> rows[j].id != id
    {
      if rows[i].id == id {
        return Some(rows[i]);
      }
      i := i + 1;
    }
    return None;
  }

  /** The copy of `ids` to which the ids of the rows are added one by one
      while fewer than `limit` have been collected; `collected` is the
      number added.  Both the bulk request and the carry-over run this
      loop. */
  method AddFirst(ids: set<int>, rows: seq<Row>, limit: int) returns (next: set<int>, collected: nat)
    ensures collected == Collected(limit, |rows|)
    ensures next == ids + IdsOf(rows[..collected])
  {
    next := ids;
    collected := 0;
    var i := 0;
    while i < |rows| && collected < limit
      invariant 0 <= i <= Collected(limit, |rows|)
      invariant collected == i
      invariant next == ids + IdsOf(rows[..i])
    {
      IdsOfSnoc(rows, i);
      next := next + {rows[i].id};
      collected := collected + 1;
      i := i + 1;
    }
  }

  /** The copy of `ids` after the table reports `checked` while `page` is
      displayed: every checked id is added, then every page id that no
      checked row carries is deleted. */
  method Reconcile(ids: set<int>, checked: seq<Row>, page: seq<Row>) returns (next: set<int>)
    ensures next == ManualChange(Coordinator(ids, None), checked, page).ids
  {
    next := ids;
    var i := 0;
    while i < |checked|
      invariant 0 <= i <= |checked|
      invariant next == ids + IdsOf(checked[..i])
    {
      IdsOfSnoc(checked, i);
      next := next + {checked[i].id};
      i := i + 1;
    }
    assert checked[..|checked|] == checked;
    var j := 0;
    while j < |page|
      invariant 0 <= j <= |page|
      invariant next == (ids + IdsOf(checked)) - (IdsOf(page[..j]) - IdsOf(checked))
    {
      IdsOfSnoc(page, j);
      var found := FindById(checked, page[j].id);
      if found.None? {
        next := next - {page[j].id};
      }
      j := j + 1;
    }
    assert page[..|page|] == page;
  }

  /** The table component: the page of rows on display, the pagination
      window, the bulk-selection input, the selected ids and the
      carry-over of a bulk request. */
  class Table {
    var products: seq<Row>
    var window: Paging.LazyState
    var selectCount: Option<int>
    var selectedIds: set<int>
    var pendingSelection: Option<Pending>

    /** The selection coordinator's part of the state. */
    ghost function State(): Coordinator
      reads this
    {
      Coordinator(selectedIds, pendingSelection)
    }

    ghost predicate Valid()
      reads this
    {
      PendingValid(State())
    }

    constructor ()
      ensures Valid()
      ensures products == [] && window == Paging.Initial && selectCount == None
      ensures selectedIds == {} && pendingSelection == None
    {
      products := [];
      window := Paging.Initial;
      selectCount := None;
      selectedIds := {};
      pendingSelection := None;
    }

    /** The rows the table shows checked: those on display whose id is
        selected. */
    function CheckedRows(): (r: seq<Row>)
      reads this
      ensures IsSubsequence(r, products)
      ensures forall row :: row in r <==> row in products && row.id in selectedIds
      ensures forall row :: multiset(r)[row] == if row.id in selectedIds then multiset(products)[row] else 0
    {
      SelectedRowsMultiplicity(products, selectedIds);
      SelectedRows(products, selectedIds)
    }

    /** The paginator moved to another page or page size. */
    method OnPage(e: Paging.PageEvent)
      modifies this`window
      ensures window == Paging.OnPage(e)
    {
      window := Paging.OnPage(e);
    }

    /** The bulk-selection input changed. */
    method SetSelectCount(v: Option<int>)
      modifies this`selectCount
      ensures selectCount == v
    {
      selectCount := v;
    }

    /** The table reported the rows now checked on the displayed page. */
    method OnSelectionChange(selectedRows: seq<Row>)
      requires Valid()
      modifies this`selectedIds
      ensures Valid()
      ensures State() == ManualChange(old(State()), selectedRows, products)
    {
      selectedIds := Reconcile(selectedIds, selectedRows, products);
    }

    /** The bulk-selection input was submitted.  A falsy count changes
        nothing; any other count runs the bulk request on the displayed
        page and clears the input. */
    method HandleOverlayOk()
      requires Valid()
      modifies this`selectedIds, this`pendingSelection, this`selectCount
      ensures Valid()
      ensures !CountGiven(old(selectCount)) ==> State() == old(State()) && selectCount == old(selectCount)
      ensures CountGiven(old(selectCount)) ==>
                State() == Bulk(old(State()), products, window.page, old(selectCount).value) && selectCount == None
    {
      if !CountGiven(selectCount) {
        return;
      }
      var count := selectCount.value;
      var next, collected := AddFirst(selectedIds, products, count);
      if collected < count {
        pendingSelection := Some(Pending(window.page + 1, count - collected));
      }
      selectedIds := next;
      selectCount := None;
    }

    /** The carry-over step run on the rows of fetched page `page`. */
    method ContinuePending(page: int, mapped: seq<Row>)
      requires Valid()
      modifies this`selectedIds, this`pendingSelection
      ensures Valid()
      ensures State() == Continue(old(State()), page, mapped)
    {
      if pendingSelection.Some? && page >= pendingSelection.value.startPage && pendingSelection.value.remaining > 0 {
        var remaining := pendingSelection.value.remaining;
        var next, collected := AddFirst(selectedIds, mapped, remaining);
        selectedIds := next;
        pendingSelection := Some(Pending(page + 1, remaining - collected));
      }
    }

    /** A fetch issued for window `request` completed.  `None` stands for a
        request or response that failed before any state was set: then
        nothing changes.  Otherwise the records become the displayed rows,
        numbered from the offset of `request`, after the carry-over step has
        run on them. */
    method FetchCompleted(request: Paging.LazyState, response: Option<seq<Record>>)
      requires Valid()
      modifies this`products, this`selectedIds, this`pendingSelection
      ensures Valid()
      ensures response.None? ==> products == old(products) && State() == old(State())
      ensures response.Some? ==>
                products == MapPage(response.value, request.first)
                && State() == Continue(old(State()), request.page, products)
    {
      if response.Some? {
        var mapped := MapPage(response.value, request.first);
        ContinuePending(request.page, mapped);
        products := mapped;
      }
    }
  }

  /** The first half of the worked example: page 1 (catalog ids 1..12) is
      fetched into a new table and twenty rows are requested on it. */
  method ScenarioBulkOnFirstPage(r1: seq<Record>) returns (t: Table)
    requires |r1| == 12 && forall i :: 0 <= i < |r1| ==> r1[i].id == 1 + i
    ensures fresh(t) && t.Valid()
    ensures t.window == Paging.Initial && |t.products| == 12 && IdsFrom(t.products, 1)
    ensures t.State() == Bulk(Coordinator({}, None), t.products, 1, 20)
  {
    t := new Table();
    t.FetchCompleted(t.window, Some(r1));
    assert t.products == MapPage(r1, 0);
    t.SetSelectCount(Some(20));
    t.HandleOverlayOk();
  }

  /** Twenty rows requested on page 1 (catalog ids 1..12), then pages 2
      (ids 13..24) and 3 fetched in turn, driven through the handlers:
      ids 1..20 end up selected and the carry-over owes nothing. */
  method WorkedScenario(r1: seq<Record>, r2: seq<Record>, r3: seq<Record>)
    returns (selected: set<int>, pending: Option<Pending>)
    requires |r1| == 12 && forall i :: 0 <= i < |r1| ==> r1[i].id == 1 + i
    requires |r2| == 12 && forall i :: 0 <= i < |r2| ==> r2[i].id == 13 + i
    ensures selected == Range(1, 21)
    ensures pending == Some(Pending(3, 0))
  {
    var t := ScenarioBulkOnFirstPage(r1);
    var p1 := t.products;
    var s1 := Bulk(Coordinator({}, None), p1, 1, 20);
    t.OnPage(Paging.PageEvent(12, 12, 1));
    t.FetchCompleted(t.window, Some(r2));
    var p2 := t.products;
    assert |p2| == 12 && IdsFrom(p2, 13) by {
      assert p2 == MapPage(r2, 12);
    }
    var s2 := Continue(s1, 2, p2);
    assert t.State() == s2;
    t.OnPage(Paging.PageEvent(24, 12, 2));
    t.FetchCompleted(t.window, Some(r3));
    var s3 := Continue(s2, 3, t.products);
    assert t.State() == s3;
    assert s3 == s2 && s2 == Coordinator(Range(1, 21), Some(Pending(3, 0))) by {
      WorkedExample(p1, p2, t.products);
    }
    selected, pending := t.selectedIds, t.pendingSelection;
  }
}
