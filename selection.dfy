/** The selection coordinator, as values: the set of selected catalog ids,
    the pending carry-over of a bulk "select first N" request, and the three
    transitions that change them.  The class in module App runs these
    transitions with the source's loops and is proved against them. */
module Selection {
  import opened Wrappers
  import opened Catalog

  /** A carry-over of a bulk request: `remaining` more ids are to be taken
      from the page numbered `startPage` or any later page fetched. */
  datatype Pending = Pending(startPage: int, remaining: int)

  /** The coordinator's state: selected ids and the optional carry-over. */
  datatype Coordinator = Coordinator(ids: set<int>, pending: Option<Pending>)

  /** The state kept by every transition: a carry-over never owes a
      negative number of rows. */
  predicate PendingValid(s: Coordinator)
  {
    s.pending.Some? ==> s.pending.value.remaining >= 0
  }

  /** The ids of a sequence of rows.  Selection is by id: two rows with the
      same id are the same selection entry. */
  function IdsOf(rows: seq<Row>): (r: set<int>)
    decreases |rows|
  {
    if rows == [] then {} else IdsOf(rows[..|rows| - 1]) + {rows[|rows| - 1].id}
  }

  /** An id is among the ids of some rows exactly when one of the rows
      carries it. */
  lemma {:induction false} IdsOfMembers(rows: seq<Row>)
    ensures forall id :: id in IdsOf(rows) <==> exists i :: 0 <= i < |rows| && rows[i].id == id
    decreases |rows|
  {
    if rows != [] {
      var init := rows[..|rows| - 1];
      IdsOfMembers(init);
      forall id | id in IdsOf(rows) ensures exists i :: 0 <= i < |rows| && rows[i].id == id {
        if id in IdsOf(init) {
          var i :| 0 <= i < |init| && init[i].id == id;
          assert rows[i].id == id;
        } else {
          assert rows[|rows| - 1].id == id;
        }
      }
      forall id | exists i :: 0 <= i < |rows| && rows[i].id == id ensures id in IdsOf(rows) {
        var i :| 0 <= i < |rows| && rows[i].id == id;
        if i < |rows| - 1 {
          assert init[i].id == id;
        }
      }
    }
  }

  /** A page never holds more distinct ids than rows. */
  lemma {:induction false} IdsOfAtMost(rows: seq<Row>)
    ensures |IdsOf(rows)| <= |rows|
    decreases |rows|
  {
    if rows != [] {
      IdsOfAtMost(rows[..|rows| - 1]);
    }
  }

  lemma IdsOfSnoc(rows: seq<Row>, i: int)
    requires 0 <= i < |rows|
    ensures IdsOf(rows[..i + 1]) == IdsOf(rows[..i]) + {rows[i].id}
  {
    assert rows[..i + 1][..i] == rows[..i];
  }

  lemma IdsOfAppend(a: seq<Row>, b: seq<Row>)
    ensures IdsOf(a + b) == IdsOf(a) + IdsOf(b)
  {
    IdsOfMembers(a);
    IdsOfMembers(b);
    IdsOfMembers(a + b);
    forall id | id in IdsOf(a + b) ensures id in IdsOf(a) + IdsOf(b) {
      var i :| 0 <= i < |a + b| && (a + b)[i].id == id;
      if i >= |a| { assert b[i - |a|].id == id; }
    }
    forall id | id in IdsOf(a) ensures id in IdsOf(a + b) {
      var i :| 0 <= i < |a| && a[i].id == id;
      assert (a + b)[i].id == id;
    }
    forall id | id in IdsOf(b) ensures id in IdsOf(a + b) {
      var i :| 0 <= i < |b| && b[i].id == id;
      assert (a + b)[|a| + i].id == id;
    }
  }

  lemma IdsOfPrefix(rows: seq<Row>, k: nat)
    requires k <= |rows|
    ensures IdsOf(rows[..k]) <= IdsOf(rows)
  {
    IdsOfMembers(rows[..k]);
    IdsOfMembers(rows);
    forall id | id in IdsOf(rows[..k]) ensures id in IdsOf(rows) {
      var i :| 0 <= i < k && rows[..k][i].id == id;
      assert rows[i].id == id;
    }
  }

  /** No two rows share an id. */
  predicate DistinctIds(rows: seq<Row>)
  {
    forall i, j :: 0 <= i < j < |rows| ==> rows[i].id != rows[j].id
  }

  /** Distinct rows contribute one id each. */
  lemma {:induction false} DistinctIdsCount(rows: seq<Row>)
    requires DistinctIds(rows)
    ensures |IdsOf(rows)| == |rows|
    decreases |rows|
  {
    if rows != [] {
      var init := rows[..|rows| - 1];
      assert DistinctIds(init);
      DistinctIdsCount(init);
      IdsOfMembers(init);
      assert rows[|rows| - 1].id !in IdsOf(init);
    }
  }

  /** The number of iterations of the source's collecting loops
      `for (i = 0; i < available && collected < limit; i++) collected++`:
      none when the limit is not positive, otherwise the smaller of the
      limit and the number of rows available. */
  function Collected(limit: int, available: nat): (k: nat)
    ensures k <= available
    ensures limit <= 0 ==> k == 0
    ensures limit > 0 ==> k <= limit && (k == limit || k == available)
  {
    if limit <= 0 then 0 else if limit < available then limit else available
  }

  // ---------------------------------------------------------------------
  // Manual reconcile (the table's selection-change event)
  // ---------------------------------------------------------------------

  /** The state after the table reports `checked` as the checked rows while
      `page` is displayed: every checked id is added, then every page id
      that is not checked is removed.  Checked ids end up selected, unchecked
      page ids end up unselected, every other id keeps its membership, and
      the carry-over is not touched. */
  function ManualChange(s: Coordinator, checked: seq<Row>, page: seq<Row>): (r: Coordinator)
    ensures r.pending == s.pending
    ensures forall id :: id in IdsOf(checked) ==> id in r.ids
    ensures forall id :: id in IdsOf(page) && id !in IdsOf(checked) ==> id !in r.ids
    ensures forall id :: id !in IdsOf(page) && id !in IdsOf(checked) ==> (id in r.ids <==> id in s.ids)
  {
    Coordinator((s.ids + IdsOf(checked)) - (IdsOf(page) - IdsOf(checked)), s.pending)
  }

  /** Reporting the same checked rows twice gives the state of reporting
      them once. */
  lemma ManualChangeIdempotent(s: Coordinator, checked: seq<Row>, page: seq<Row>)
    ensures ManualChange(ManualChange(s, checked, page), checked, page) == ManualChange(s, checked, page)
  {
  }

  // ---------------------------------------------------------------------
  // The rows the table shows as checked
  // ---------------------------------------------------------------------

  /** `sub` is `full` with some of its rows left out, the others kept in
      their order. */
  predicate IsSubsequence(sub: seq<Row>, full: seq<Row>)
    decreases |full|
  {
    sub == [] ||
    (full != [] && ((sub[0] == full[0] && IsSubsequence(sub[1..], full[1..])) || IsSubsequence(sub, full[1..])))
  }

  /** The rows of `page` whose id is selected, in page order (the filter
      the table is given as its selection). */
  function SelectedRows(page: seq<Row>, ids: set<int>): (r: seq<Row>)
    ensures |r| <= |page|
    ensures IsSubsequence(r, page)
    ensures forall row :: row in r <==> row in page && row.id in ids
    decreases |page|
  {
    if page == [] then []
    else
      var rest := SelectedRows(page[1..], ids);
      if page[0].id in ids then
        assert ([page[0]] + rest)[1..] == rest;
        [page[0]] + rest
      else rest
  }

  /** The filter keeps every copy of a row whose id is selected and none
      of any other row. */
  lemma {:induction false} SelectedRowsMultiplicity(page: seq<Row>, ids: set<int>)
    ensures forall row :: multiset(SelectedRows(page, ids))[row] == if row.id in ids then multiset(page)[row] else 0
    decreases |page|
  {
    if page != [] {
      SelectedRowsMultiplicity(page[1..], ids);
      assert page == [page[0]] + page[1..];
    }
  }

  lemma IdsOfSelectedRows(page: seq<Row>, ids: set<int>)
    ensures IdsOf(SelectedRows(page, ids)) == IdsOf(page) * ids
  {
    var sel := SelectedRows(page, ids);
    IdsOfMembers(sel);
    IdsOfMembers(page);
    forall id | id in IdsOf(sel) ensures id in IdsOf(page) * ids {
      var i :| 0 <= i < |sel| && sel[i].id == id;
      assert sel[i] in page;
    }
    forall id | id in IdsOf(page) * ids ensures id in IdsOf(sel) {
      var i :| 0 <= i < |page| && page[i].id == id;
      assert page[i] in sel;
    }
  }

  /** Whether a row is shown checked depends only on its id: two pages
      with the same ids in the same order, whatever their other fields,
      show the same ids checked, in the same order.  Refetching a page
      therefore never loses its checked state. */
  lemma {:induction false} SelectionSurvivesRefetch(p1: seq<Row>, p2: seq<Row>, ids: set<int>)
    requires |p1| == |p2|
    requires forall i :: 0 <= i < |p1| ==> p1[i].id == p2[i].id
    ensures |SelectedRows(p1, ids)| == |SelectedRows(p2, ids)|
    ensures forall i :: 0 <= i < |SelectedRows(p1, ids)| ==> SelectedRows(p1, ids)[i].id == SelectedRows(p2, ids)[i].id
    decreases |p1|
  {
    if p1 != [] {
      SelectionSurvivesRefetch(p1[1..], p2[1..], ids);
      var t1, t2 := SelectedRows(p1[1..], ids), SelectedRows(p2[1..], ids);
      if p1[0].id in ids {
        assert SelectedRows(p1, ids) == [p1[0]] + t1;
        assert SelectedRows(p2, ids) == [p2[0]] + t2;
      } else {
        assert SelectedRows(p1, ids) == t1;
        assert SelectedRows(p2, ids) == t2;
      }
    }
  }

  /** Echoing back what the table shows as checked changes nothing. */
  lemma ManualChangeEchoIsNoop(s: Coordinator, page: seq<Row>)
    ensures ManualChange(s, SelectedRows(page, s.ids), page) == s
  {
    IdsOfSelectedRows(page, s.ids);
    assert ManualChange(s, SelectedRows(page, s.ids), page).ids == s.ids;
  }

  /** Unticking one visible row removes exactly that row's id. */
  lemma ManualChangeUncheckOne(s: Coordinator, page: seq<Row>, x: int)
    requires x in IdsOf(page)
    ensures ManualChange(s, SelectedRows(page, s.ids - {x}), page).ids == s.ids - {x}
  {
    IdsOfSelectedRows(page, s.ids - {x});
    assert ManualChange(s, SelectedRows(page, s.ids - {x}), page).ids == s.ids - {x};
  }

  /** Ticking one visible row adds exactly that row's id. */
  lemma ManualChangeCheckOne(s: Coordinator, page: seq<Row>, x: int)
    requires x in IdsOf(page)
    ensures ManualChange(s, SelectedRows(page, s.ids + {x}), page).ids == s.ids + {x}
  {
    IdsOfSelectedRows(page, s.ids + {x});
    assert ManualChange(s, SelectedRows(page, s.ids + {x}), page).ids == s.ids + {x};
  }

  // ---------------------------------------------------------------------
  // Bulk "select first N"
  // ---------------------------------------------------------------------

  /** The state after a bulk request for `count` rows while `rows` are
      loaded as page `page`: the first rows, up to `count`, are added;
      when the page falls short, a carry-over for the rest starts at the
      next page and replaces any earlier one; otherwise the earlier
      carry-over is kept. */
  function Bulk(s: Coordinator, rows: seq<Row>, page: int, count: int): (r: Coordinator)
    ensures s.ids <= r.ids <= s.ids + IdsOf(rows)
    ensures count <= |rows| ==> r.pending == s.pending
    ensures |rows| < count ==> r.pending == Some(Pending(page + 1, count - |rows|))
  {
    var k := Collected(count, |rows|);
    IdsOfPrefix(rows, k);
    Coordinator(s.ids + IdsOf(rows[..k]),
                if k < count then Some(Pending(page + 1, count - k)) else s.pending)
  }

  /** A bulk request never removes an id, adds exactly the ids of the first
      min(count, |rows|) rows, and records a carry-over of the shortfall,
      anchored at the next page, exactly when the page is too short. */
  lemma BulkSpec(s: Coordinator, rows: seq<Row>, page: int, count: int)
    ensures s.ids <= Bulk(s, rows, page, count).ids
    ensures count <= 0 ==> Bulk(s, rows, page, count) == s
    ensures count > 0 ==> Bulk(s, rows, page, count).ids - s.ids
                           == IdsOf(rows[..if count < |rows| then count else |rows|]) - s.ids
    ensures |rows| < count ==> Bulk(s, rows, page, count).pending == Some(Pending(page + 1, count - |rows|))
    ensures count <= |rows| ==> Bulk(s, rows, page, count).pending == s.pending
  {
  }

  /** On a page holding at least `count` rows with distinct ids of which
      none is selected, a bulk request selects exactly `count` more ids and
      creates no carry-over. */
  lemma BulkAddsExactlyCount(s: Coordinator, rows: seq<Row>, page: int, count: int)
    requires 0 < count <= |rows|
    requires DistinctIds(rows)
    requires IdsOf(rows) !! s.ids
    ensures |Bulk(s, rows, page, count).ids| == |s.ids| + count
    ensures Bulk(s, rows, page, count).pending == s.pending
  {
    var first := rows[..count];
    assert DistinctIds(first);
    DistinctIdsCount(first);
    IdsOfMembers(first);
    IdsOfMembers(rows);
    assert IdsOf(first) <= IdsOf(rows) by {
      forall id | id in IdsOf(first) ensures id in IdsOf(rows) {
        var i :| 0 <= i < |first| && first[i].id == id;
        assert rows[i].id == id;
      }
    }
  }

  /** Rows already selected still count towards the request: on a page
      whose ids are all selected and that holds at least `count` rows, a
      bulk request changes nothing and creates no carry-over. */
  lemma BulkCountsSelectedRows(s: Coordinator, rows: seq<Row>, page: int, count: int)
    requires 0 < count <= |rows|
    requires IdsOf(rows) <= s.ids
    ensures Bulk(s, rows, page, count) == s
  {
    var first := rows[..count];
    IdsOfMembers(first);
    IdsOfMembers(rows);
    forall id | id in IdsOf(first) ensures id in s.ids {
      var i :| 0 <= i < |first| && first[i].id == id;
      assert rows[i].id == id;
    }
  }

  // ---------------------------------------------------------------------
  // Carry-over continuation on a fetched page
  // ---------------------------------------------------------------------

  /** Whether a carry-over applies to fetched page `page`. */
  predicate Active(p: Option<Pending>, page: int)
  {
    p.Some? && page >= p.value.startPage && p.value.remaining > 0
  }

  /** A carry-over that applies to a page applies to every later page, and
      one that owes nothing applies to none. */
  lemma ActiveOnLaterPages(p: Option<Pending>, page: int, later: int)
    requires page <= later
    ensures Active(p, page) ==> Active(p, later)
    ensures p.Some? && p.value.remaining <= 0 ==> !Active(p, later)
  {
  }

  /** The state after page `page` arrives with `rows`: when a carry-over
      applies, up to `remaining` of the rows are selected, and the
      carry-over is re-anchored at the page after `page` owing what is
      still missing (possibly zero, in which case it stays, inert). */
  function Continue(s: Coordinator, page: int, rows: seq<Row>): (r: Coordinator)
    ensures s.ids <= r.ids <= s.ids + IdsOf(rows)
    ensures !Active(s.pending, page) ==> r == s
    ensures Active(s.pending, page) ==> r.pending.Some? && r.pending.value.startPage == page + 1
                                        && 0 <= r.pending.value.remaining <= s.pending.value.remaining
  {
    if Active(s.pending, page) then
      var k := Collected(s.pending.value.remaining, |rows|);
      IdsOfPrefix(rows, k);
      Coordinator(s.ids + IdsOf(rows[..k]), Some(Pending(page + 1, s.pending.value.remaining - k)))
    else s
  }

  /** A fetched page changes nothing unless a carry-over applies to it;
      when one does, it selects the first min(remaining, |rows|) rows,
      removes nothing, re-anchors at page + 1, and owes a non-negative
      remainder that is smaller exactly by the number of rows taken. */
  lemma ContinueSpec(s: Coordinator, page: int, rows: seq<Row>)
    ensures !Active(s.pending, page) ==> Continue(s, page, rows) == s
    ensures Active(s.pending, page) ==>
      var rem := s.pending.value.remaining;
      var k := if rem < |rows| then rem else |rows|;
      && Continue(s, page, rows).ids == s.ids + IdsOf(rows[..k])
      && Continue(s, page, rows).pending == Some(Pending(page + 1, rem - k))
      && rem - k >= 0
  {
  }

  /** Once a carry-over owes nothing, no later page changes the state. */
  lemma ExhaustedIsInert(s: Coordinator, page: int, rows: seq<Row>)
    requires s.pending.Some? && s.pending.value.remaining == 0
    ensures Continue(s, page, rows) == s
  {
  }

  /** Every transition keeps the carry-over's remainder non-negative. */
  lemma TransitionsKeepPendingValid(s: Coordinator, rows: seq<Row>, checked: seq<Row>, page: int, count: int)
    requires PendingValid(s)
    ensures PendingValid(ManualChange(s, checked, rows))
    ensures PendingValid(Bulk(s, rows, page, count))
    ensures PendingValid(Continue(s, page, rows))
  {
  }

  // ---------------------------------------------------------------------
  // A bulk request followed by the pages fetched after it
  // ---------------------------------------------------------------------

  /** All rows of consecutive pages, in catalog order. */
  function Flatten(pages: seq<seq<Row>>): (all: seq<Row>)
    decreases |pages|
  {
    if pages == [] then [] else pages[0] + Flatten(pages[1..])
  }

  /** Pages `page`, `page + 1`, ... arriving in order. */
  function ContinueAll(s: Coordinator, page: int, pages: seq<seq<Row>>): Coordinator
    decreases |pages|
  {
    if pages == [] then s else ContinueAll(Continue(s, page, pages[0]), page + 1, pages[1..])
  }

  lemma TakeAppend(a: seq<Row>, b: seq<Row>, k: nat)
    requires k <= |b|
    ensures (a + b)[..|a| + k] == a + b[..k]
  {
  }

  /** Consecutive pages arriving after a carry-over anchored no later than
      the first of them consume, in order, the first `remaining` rows they
      hold between them. */
  lemma {:induction false} ContinueAllTakes(s: Coordinator, page: int, pages: seq<seq<Row>>)
    requires PendingValid(s) && s.pending.Some? && s.pending.value.startPage <= page
    ensures
      var rem := s.pending.value.remaining;
      var all := Flatten(pages);
      var k := Collected(rem, |all|);
      var r := ContinueAll(s, page, pages);
      && r.ids == s.ids + IdsOf(all[..k])
      && r.pending.Some? && r.pending.value.remaining == rem - k
      && (rem - k > 0 && pages != [] ==> r.pending.value.startPage == page + |pages|)
    decreases |pages|
  {
    var rem := s.pending.value.remaining;
    if pages == [] {
      assert Flatten(pages)[..0] == [];
    } else {
      var p0, rest := pages[0], pages[1..];
      var all, tail := Flatten(pages), Flatten(rest);
      assert all == p0 + tail;
      var s1 := Continue(s, page, p0);
      ContinueAllTakes(s1, page + 1, rest);
      var k := Collected(rem, |all|);
      if rem == 0 {
        assert all[..0] == [] && tail[..0] == [];
      } else {
        var k0 := Collected(rem, |p0|);
        var k1 := Collected(rem - k0, |tail|);
        if k0 < |p0| {
          assert k0 == rem && k1 == 0 && k == rem;
          assert all[..k] == p0[..k0];
          assert tail[..0] == [];
        } else {
          assert k == k0 + k1;
          TakeAppend(p0, tail, k1);
          assert p0[..k0] == p0;
          IdsOfAppend(p0, tail[..k1]);
        }
      }
    }
  }

  /** The cross-page guarantee of a bulk request for `count` rows issued on
      a page too short to satisfy it: once the following pages have
      arrived in order, the selection holds exactly the earlier ids plus
      the first `count` rows (or all, if fewer) of the issuing page followed
      by those pages, and the carry-over owes exactly the shortfall. */
  lemma BulkAcrossPages(s: Coordinator, rows: seq<Row>, page: int, count: int, pages: seq<seq<Row>>)
    requires |rows| < count
    ensures
      var all := rows + Flatten(pages);
      var k := Collected(count, |all|);
      var r := ContinueAll(Bulk(s, rows, page, count), page + 1, pages);
      && r.ids == s.ids + IdsOf(all[..k])
      && r.pending.Some? && r.pending.value.remaining == count - k
  {
    var b := Bulk(s, rows, page, count);
    assert b == Coordinator(s.ids + IdsOf(rows), Some(Pending(page + 1, count - |rows|))) by {
      assert rows[..|rows|] == rows;
    }
    ContinueAllTakes(b, page + 1, pages);
    var tail := Flatten(pages);
    var k1 := Collected(count - |rows|, |tail|);
    var all := rows + tail;
    assert Collected(count, |all|) == |rows| + k1;
    assert IdsOf(rows) + IdsOf(tail[..k1]) == IdsOf(all[..|rows| + k1]) by {
      TakeAppend(rows, tail, k1);
      IdsOfAppend(rows, tail[..k1]);
    }
  }

  // ---------------------------------------------------------------------
  // The worked example
  // ---------------------------------------------------------------------

  /** Rows whose ids run consecutively from `lo`. */
  predicate IdsFrom(rows: seq<Row>, lo: int)
  {
    forall i :: 0 <= i < |rows| ==> rows[i].id == lo + i
  }

  /** The ids lo, lo + 1, ..., hi - 1. */
  function Range(lo: int, hi: int): (r: set<int>)
    ensures forall x :: x in r <==> lo <= x < hi
    decreases hi - lo
  {
    if lo >= hi then {} else Range(lo, hi - 1) + {hi - 1}
  }

  lemma RangeSplit(lo: int, mid: int, hi: int)
    requires lo <= mid <= hi
    ensures Range(lo, mid) + Range(mid, hi) == Range(lo, hi)
  {
  }

  lemma IdsOfConsecutive(rows: seq<Row>, lo: int, k: nat)
    requires IdsFrom(rows, lo) && k <= |rows|
    ensures IdsOf(rows[..k]) == Range(lo, lo + k)
  {
    IdsOfMembers(rows[..k]);
    forall x | lo <= x < lo + k ensures x in IdsOf(rows[..k]) {
      assert rows[..k][x - lo].id == x;
    }
  }

  /** Page 1 of the worked example: twenty rows requested on twelve rows
      with ids 1..12. */
  lemma WorkedExampleFirstPage(p1: seq<Row>)
    requires |p1| == 12 && IdsFrom(p1, 1)
    ensures Bulk(Coordinator({}, None), p1, 1, 20) == Coordinator(Range(1, 13), Some(Pending(2, 8)))
  {
    assert Collected(20, |p1|) == 12;
    IdsOfConsecutive(p1, 1, 12);
  }

  /** Page 2 of the worked example: the eight rows still owed are taken
      from twelve rows with ids 13..24. */
  lemma WorkedExampleSecondPage(p2: seq<Row>)
    requires |p2| == 12 && IdsFrom(p2, 13)
    ensures Continue(Coordinator(Range(1, 13), Some(Pending(2, 8))), 2, p2)
            == Coordinator(Range(1, 21), Some(Pending(3, 0)))
  {
    var s1 := Coordinator(Range(1, 13), Some(Pending(2, 8)));
    assert Active(s1.pending, 2) && Collected(8, |p2|) == 8;
    IdsOfConsecutive(p2, 13, 8);
    RangeSplit(1, 13, 21);
  }

  /** Twenty rows requested on page 1 of twelve rows (ids 1..12): twelve
      are selected and eight carried over to page 2; page 2 (ids 13..24)
      supplies ids 13..20 and leaves an inert carry-over owing nothing;
      page 3 changes nothing. */
  lemma WorkedExample(p1: seq<Row>, p2: seq<Row>, p3: seq<Row>)
    requires |p1| == 12 && IdsFrom(p1, 1)
    requires |p2| == 12 && IdsFrom(p2, 13)
    ensures
      var s0 := Coordinator({}, None);
      var s1 := Bulk(s0, p1, 1, 20);
      var s2 := Continue(s1, 2, p2);
      var s3 := Continue(s2, 3, p3);
      && s1 == Coordinator(Range(1, 13), Some(Pending(2, 8)))
      && s2 == Coordinator(Range(1, 21), Some(Pending(3, 0)))
      && s3 == s2
  {
    WorkedExampleFirstPage(p1);
    WorkedExampleSecondPage(p2);
  }
}
