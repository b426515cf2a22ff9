/** The state `BiliCommentsScraper` keeps between calls: the video page URL and
    the page cap given to the constructor, and the comments `run` stores for
    `save_to` to de-duplicate and reshape. The HTTP session, headers, cookies
    and the progress flag only feed network calls and are not kept here. */
module Scraper {
  import opened Wrappers
  import Dedup
  import Comments
  import Urls
  import Pages

  class BiliCommentsScraper {
    var url: string
    var maxCommentPages: Option<int>
    var comments: Option<seq<Comments.RawComment>>

    /** `__init__`: nothing fetched yet, so `self.comments` is `None`. */
    constructor (url: string, maxCommentPages: Option<int>)
      ensures this.url == url && this.maxCommentPages == maxCommentPages
      ensures comments == None
    {
      this.url := url;
      this.maxCommentPages := maxCommentPages;
      comments := None;
    }

    /** The arithmetic of `get_total_pages` with this scraper's page cap:
        `count` is the comment count the first page reported (`None` when it
        returned nothing usable). */
    function TotalPages(count: Option<int>): (pages: int)
      reads this
      ensures count.None? ==> pages == 0
      ensures count.Some? ==> pages <= Pages.UncappedPages(count.value)
      ensures count.Some? && Pages.Truthy(maxCommentPages) ==> pages <= maxCommentPages.value
      ensures !Pages.Truthy(maxCommentPages) ==> pages <= Pages.DefaultPageCap
    {
      Pages.TotalPages(count, maxCommentPages)
    }

    /** `run`: finds the BV id in the page URL, then stores the comments
        fetched through the API URL built from it. `fetched` stands for what
        the network calls of `run` gave: the list `get_comment_data` returned,
        or `None` where `get_video_info` raised (a view response whose `data`
        is null) or `get_comment_data` raised (a page fetch that gave nothing,
        or a first page without data). Without a BV id `get_url_info` raises;
        in each of these cases nothing is stored. */
    method Run(fetched: Option<seq<Comments.RawComment>>) returns (ok: bool)
      modifies this
      ensures ok <==> Urls.GetUrlInfo(url, None).Success? && fetched.Some?
      ensures url == old(url) && maxCommentPages == old(maxCommentPages)
      ensures comments == if ok then fetched else old(comments)
    {
      var info := Urls.GetUrlInfo(url, None);
      ok := info.Success? && fetched.Some?;
      if ok {
        comments := fetched;
      }
    }

    /** The data half of `save_to`: duplicates removed, then reshaped and
        sorted. `None` where `save_to` would raise because `run` never stored
        anything. */
    method PrepareForSave() returns (r: Option<seq<Comments.Formatted>>)
      ensures r.Some? <==> comments.Some?
      ensures r.Some? ==>
        var unique := Dedup.RemoveDuplicates(comments.value);
        Comments.LikeNonIncreasing(r.value) &&
        multiset(r.value) == multiset(Comments.FormatAll(unique)) &&
        (forall k :: Comments.WithLike(r.value, k) == Comments.WithLike(Comments.FormatAll(unique), k))
    {
      if comments.None? {
        return None;
      }
      var unique := Dedup.RemoveDuplicates(comments.value);
      var formatted := Comments.ConvertToJsonDictList(unique);
      r := Some(formatted);
    }
  }

  /** `save_to` de-duplicates whole API objects: two comments that differ in
      any field, even one `extract_data` does not read (a repost has its own
      `rpid`), both survive, in order. */
  lemma DistinctCommentsBothKept(c: Comments.RawComment, d: Comments.RawComment)
    requires c != d
    ensures Dedup.RemoveDuplicates([c, d]) == [c, d]
  {
    assert [c, d][1..] == [d];
    assert c !in [d];
  }
}
