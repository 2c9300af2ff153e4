/** The place-search widget's `results` callback: whether another page of matches exists. */
module SearchPaging {

  /** Records requested per page (`pageLimit`). */
  const PageLimit: nat := 10

  /** Records delivered before the current page; page numbers start at 1 and anything
      below 1 counts as the first page. */
  function PreviousRecords(page: int): (n: nat)
    ensures page <= 1 ==> n == 0
    ensures page >= 1 ==> n == (page - 1) * PageLimit
  {
    (if page > 0 then page - 1 else 0) * PageLimit
  }

  /** `more`: records seen so far, the current payload's `count` included, fall short of `total`. */
  function MoreResults(page: int, count: int, total: int): (r: bool)
    ensures page <= 1 ==> (r <==> count < total)
    ensures page >= 1 ==> (r <==> (page - 1) * PageLimit + count < total)
  {
    PreviousRecords(page) + count < total
  }

  /** Pages 0 and 1 are both the first page. */
  lemma PageZeroIsFirstPage(count: int, total: int)
    ensures MoreResults(0, count, total) == MoreResults(1, count, total)
  {
  }

  /** When every page so far came back full, there is more exactly when the pages
      delivered hold fewer records than the total. */
  lemma FullPagesMore(page: int, total: int)
    requires page >= 1
    ensures MoreResults(page, PageLimit, total) <==> page * PageLimit < total
  {
  }

  /** Once all `total` records have been delivered, paging stops. */
  lemma AllDeliveredStops(page: int, count: int, total: int)
    requires PreviousRecords(page) + count >= total
    ensures !MoreResults(page, count, total)
  {
  }

  /** Against a server that returns full pages until the last, which holds the remainder,
      `more` holds on a page exactly when records lie beyond it. */
  lemma MoreIffRecordsBeyondPage(page: int, total: int)
    requires page >= 1 && PreviousRecords(page) < total
    ensures var remaining := total - PreviousRecords(page);
      var count := if remaining < PageLimit then remaining else PageLimit;
      MoreResults(page, count, total) <==> page * PageLimit < total
  {
  }

  /** A larger total never turns `more` off. */
  lemma MoreMonotoneInTotal(page: int, count: int, total: int, total': int)
    requires total <= total' && MoreResults(page, count, total)
    ensures MoreResults(page, count, total')
  {
  }
}
