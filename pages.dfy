/** The page-count arithmetic of `BiliCommentsScraper.get_total_pages`, as a
    function of the comment count the API reports and of `max_comment_pages`. */
module Pages {
  import opened Wrappers

  /** `self.comments_per_page`, fixed by the constructor. */
  const CommentsPerPage: int := 20

  /** The page count kept when no `max_comment_pages` is set. */
  const DefaultPageCap: int := 100

  /** `(total_comments - 1) // comments_per_page + 1`. Python's `//` floors;
      for a positive divisor Dafny's `/` is the same floor, so this holds for
      negative counts too. */
  function UncappedPages(count: int): (pages: int)
    ensures (pages - 1) * CommentsPerPage <= count - 1 < pages * CommentsPerPage
  {
    (count - 1) / CommentsPerPage + 1
  }

  /** Python truthiness of `max_comment_pages`: neither `None` nor `0`. */
  predicate Truthy(maxPages: Option<int>)
  {
    maxPages.Some? && maxPages.value != 0
  }

  function Min(a: int, b: int): int
  {
    if a <= b then a else b
  }

  /** `get_total_pages` once the first page has been fetched: `count` is `None`
      when nothing usable came back or the `count` key was missing, and then
      the answer is `0`. */
  function TotalPages(count: Option<int>, maxPages: Option<int>): int
  {
    match count
    case None => 0
    case Some(c) =>
      var pages := UncappedPages(c);
      if Truthy(maxPages) then Min(pages, maxPages.value)
      else if pages > DefaultPageCap then DefaultPageCap
      else pages
  }

  /** For a real (non-negative) count the uncapped page count is the ceiling of
      `count / 20`: enough pages to hold every comment and no empty page; no
      comments means no pages. */
  lemma UncappedIsCeiling(count: int)
    requires count >= 0
    ensures UncappedPages(count) >= 0
    ensures UncappedPages(count) * CommentsPerPage >= count
    ensures (UncappedPages(count) - 1) * CommentsPerPage < count || count == 0
    ensures count == 0 <==> UncappedPages(count) == 0
  {
  }

  /** With `max_comment_pages` set, the result is the smaller of the two;
      without it, the smaller of the page count and 100, so never above 100. */
  lemma TotalPagesCapped(count: int, maxPages: Option<int>)
    ensures Truthy(maxPages) ==>
      TotalPages(Some(count), maxPages) == Min(UncappedPages(count), maxPages.value)
    ensures !Truthy(maxPages) ==>
      TotalPages(Some(count), maxPages) == Min(UncappedPages(count), DefaultPageCap)
      && TotalPages(Some(count), maxPages) <= DefaultPageCap
  {
  }

  /** A positive cap is never exceeded, and a count that fits in the cap is
      left alone. */
  lemma TotalPagesWithinCap(count: int, maxPages: Option<int>)
    requires count >= 0
    ensures 0 <= TotalPages(Some(count), maxPages)
      || (Truthy(maxPages) && maxPages.value < 0)
    ensures Truthy(maxPages) && UncappedPages(count) <= maxPages.value ==>
      TotalPages(Some(count), maxPages) == UncappedPages(count)
    ensures TotalPages(Some(count), maxPages) <= UncappedPages(count)
  {
    UncappedIsCeiling(count);
  }
}
