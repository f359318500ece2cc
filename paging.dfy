/** The table's lazy pagination window and the conversion of the
    paginator's page-change event into it. */
module Paging {

  /** The window the table shows: `first` is the 0-based offset of its
      first row, `rows` the page size and `page` the 1-based page number
      sent to the catalog. */
  datatype LazyState = LazyState(first: int, rows: int, page: int)

  /** A page-change event from the paginator; its `page` is 0-based. */
  datatype PageEvent = PageEvent(first: int, rows: int, page: int)

  /** The window the table starts with. */
  const Initial: LazyState := LazyState(0, 12, 1)

  /** The window after a page change.  Every field of the old window is
      overwritten, so the result depends on the event alone. */
  function OnPage(e: PageEvent): (s: LazyState)
    ensures s.first == e.first && s.rows == e.rows
    ensures s.page >= 1 <==> e.page >= 0
  {
    LazyState(e.first, e.rows, e.page + 1)
  }

  /** A window whose page number is the one its offset lies on. */
  predicate Consistent(s: LazyState)
  {
    s.rows > 0 && s.first >= 0 && s.page >= 1 && s.page == s.first / s.rows + 1
  }

  /** An event the paginator emits for page `page` (0-based) of a table
      with page size `rows`. */
  predicate WellFormedEvent(e: PageEvent)
  {
    e.rows > 0 && e.page >= 0 && e.first == e.page * e.rows
  }

  lemma InitialConsistent()
    ensures Consistent(Initial)
  {
  }

  /** Converting the paginator's 0-based page to the 1-based page number
      yields a window whose page number agrees with its offset. */
  lemma OnPageConsistent(e: PageEvent)
    requires WellFormedEvent(e)
    ensures Consistent(OnPage(e))
    ensures OnPage(e).page - 1 == e.first / e.rows
  {
    DivOfMultiple(e.page, e.rows);
  }

  lemma MulSign(k: int, n: int)
    requires n > 0
    ensures k > 0 ==> k * n >= n
    ensures k < 0 ==> k * n <= -n
  {
  }

  lemma DivOfMultiple(p: int, n: int)
    requires n > 0
    ensures (p * n) / n == p
  {
    var q := p * n;
    var d, r := q / n, q % n;
    assert q == d * n + r && 0 <= r < n;
    assert (d - p) * n == d * n - p * n;
    MulSign(d - p, n);
  }
}
