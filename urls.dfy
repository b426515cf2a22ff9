/** `BiliCommentsScraper.get_url_info`: the BV id is the group of the first
    match of `/(BV\w+)/` in the video page URL, and the comment API URL is a
    template with a `{}` slot for the page number. The video title the API
    returns for the id is a parameter (`fetchedTitle`), since fetching it is
    network I/O. */
module Urls {
  import opened Wrappers
  import PyStr
  import Titles

  /** `\w` on ASCII text: letters, digits and `_`. */
  predicate IsWordChar(c: char)
  {
    ('a' <= c <= 'z') || ('A' <= c <= 'Z') || ('0' <= c <= '9') || c == '_'
  }

  /** A BV id as the pattern's group captures it: `BV` and one or more word
      characters. */
  predicate IsBvId(bv: string)
  {
    |bv| >= 3 && bv[0] == 'B' && bv[1] == 'V' &&
    forall i :: 2 <= i < |bv| ==> IsWordChar(bv[i])
  }

  /** The pattern, read as a statement about position `p`: `/`, a BV id, `/`. */
  predicate PatternAt(url: string, p: nat, bv: string)
  {
    IsBvId(bv) && p + |bv| + 2 <= |url| && url[p..p + |bv| + 2] == "/" + bv + "/"
  }

  /** The number of word characters from position `i` on, up to the first
      character that is not one: what the greedy `\w+` consumes. */
  function WordRun(s: string, i: nat): (n: nat)
    requires i <= |s|
    ensures i + n <= |s|
    ensures forall j :: i <= j < i + n ==> IsWordChar(s[j])
    ensures i + n == |s| || !IsWordChar(s[i + n])
    decreases |s| - i
  {
    if i < |s| && IsWordChar(s[i]) then 1 + WordRun(s, i + 1) else 0
  }

  /** The regular expression tried at position `p`: the group when it matches
      there. `\w+` takes the longest run, and giving characters back cannot
      help, since the character after a shorter run is a word character and
      not `/`. */
  function MatchAt(url: string, p: nat): Option<string>
    requires p <= |url|
  {
    if p + 3 <= |url| && url[p] == '/' && url[p + 1] == 'B' && url[p + 2] == 'V' then
      var n := WordRun(url, p + 3);
      if n >= 1 && p + 3 + n < |url| && url[p + 3 + n] == '/' then Some(url[p + 1..p + 3 + n])
      else None
    else None
  }

  /** The first match starting at or after `p`. */
  function FindBvFrom(url: string, p: nat): Option<string>
    requires p <= |url|
    decreases |url| - p
  {
    if p == |url| then None
    else match MatchAt(url, p)
      case Some(bv) => Some(bv)
      case None => FindBvFrom(url, p + 1)
  }

  /** `re.compile(r'/(BV\w+)/').findall(url)[0]`; `None` where indexing the
      empty match list raises `IndexError`. */
  function FindBv(url: string): Option<string>
  {
    FindBvFrom(url, 0)
  }

  /** The matcher matches at `p` exactly when the pattern is there, and then
      captures that id. */
  lemma MatchAtIff(url: string, p: nat, bv: string)
    requires p <= |url|
    ensures MatchAt(url, p) == Some(bv) <==> PatternAt(url, p, bv)
  {
    if PatternAt(url, p, bv) {
      MatchAtComplete(url, p, bv);
    }
    if MatchAt(url, p) == Some(bv) {
      MatchAtSound(url, p);
    }
  }

  /** The characters the pattern fixes, read off one by one. */
  lemma PatternAtChars(url: string, p: nat, bv: string)
    requires PatternAt(url, p, bv)
    ensures url[p] == '/' && url[p + |bv| + 1] == '/'
    ensures forall j :: 0 <= j < |bv| ==> url[p + 1 + j] == bv[j]
  {
    var w := url[p..p + |bv| + 2];
    assert url[p] == w[0];
    assert url[p + |bv| + 1] == w[|bv| + 1];
    forall j | 0 <= j < |bv| ensures url[p + 1 + j] == bv[j] {
      assert url[p + 1 + j] == w[j + 1];
    }
  }

  lemma MatchAtComplete(url: string, p: nat, bv: string)
    requires PatternAt(url, p, bv)
    ensures MatchAt(url, p) == Some(bv)
  {
    PatternAtChars(url, p, bv);
    var n := |bv| - 2;
    assert url[p + 1] == 'B' && url[p + 2] == 'V';
    forall j | p + 3 <= j < p + 3 + n ensures IsWordChar(url[j]) {
      assert url[j] == bv[j - p - 1];
    }
    WordRunExact(url, p + 3, n);
    assert url[p + 1..p + 3 + n] == bv;
  }

  lemma MatchAtSound(url: string, p: nat)
    requires p <= |url| && MatchAt(url, p).Some?
    ensures PatternAt(url, p, MatchAt(url, p).value)
  {
    var n := WordRun(url, p + 3);
    var bv := url[p + 1..p + 3 + n];
    assert MatchAt(url, p) == Some(bv);
    assert bv[0] == 'B' && bv[1] == 'V';
    forall i | 2 <= i < |bv| ensures IsWordChar(bv[i]) {
      assert bv[i] == url[p + 1 + i];
    }
    var w := url[p..p + |bv| + 2];
    forall j | 0 <= j < |w| ensures w[j] == ("/" + bv + "/")[j] {
      if 1 <= j <= |bv| {
        assert w[j] == bv[j - 1];
      }
    }
  }

  /** A run of `n` word characters followed by a non-word character is what
      WordRun measures. */
  lemma {:induction false} WordRunExact(s: string, i: nat, n: nat)
    requires i + n < |s|
    requires forall j :: i <= j < i + n ==> IsWordChar(s[j])
    requires !IsWordChar(s[i + n])
    ensures WordRun(s, i) == n
    decreases n
  {
    if n > 0 {
      WordRunExact(s, i + 1, n - 1);
    }
  }

  /** The id found is the match that starts leftmost: it matches at some `p`,
      and nothing matches before `p`; no id is found only when nothing matches
      anywhere. */
  lemma {:induction false} FindBvFromIsLeftmost(url: string, p: nat)
    requires p <= |url|
    ensures FindBvFrom(url, p).Some? ==>
      exists q :: p <= q < |url| && MatchAt(url, q) == FindBvFrom(url, p) &&
        forall q' :: p <= q' < q ==> MatchAt(url, q') == None
    ensures FindBvFrom(url, p).None? ==> forall q :: p <= q <= |url| ==> MatchAt(url, q) == None
    decreases |url| - p
  {
    if p < |url| && MatchAt(url, p).None? {
      FindBvFromIsLeftmost(url, p + 1);
    }
  }

  /** `findall(url)[0]`, as the pattern means it: the id found is the one
      written between slashes at the leftmost position where the pattern
      fits, and nothing is found exactly when it fits nowhere. */
  lemma FindBvIsLeftmost(url: string)
    ensures FindBv(url).Some? ==>
      IsBvId(FindBv(url).value) &&
      exists p: nat :: p <= |url| && PatternAt(url, p, FindBv(url).value) &&
        forall q :: 0 <= q < p ==> MatchAt(url, q) == None
    ensures FindBv(url).None? ==> forall p: nat, bv :: p <= |url| ==> !PatternAt(url, p, bv)
  {
    FindBvFromIsLeftmost(url, 0);
    if FindBv(url).Some? {
      var bv := FindBv(url).value;
      var p :| 0 <= p < |url| && MatchAt(url, p) == FindBv(url) &&
        forall q' :: 0 <= q' < p ==> MatchAt(url, q') == None;
      MatchAtIff(url, p, bv);
    } else {
      forall p: nat, bv | p <= |url| ensures !PatternAt(url, p, bv) {
        MatchAtIff(url, p, bv);
      }
    }
  }

  /** The video page address the source's example uses. */
  const VideoPagePrefix: string := "https://www.bilibili.com/video/"

  /** After a prefix that holds no capital `B` and ends in `/`, an id written
      as `<id>/` is the one found, whatever follows. */
  lemma FindBvAfterPrefix(prefix: string, bv: string, rest: string)
    requires prefix != [] && prefix[|prefix| - 1] == '/' && 'B' !in prefix
    requires IsBvId(bv)
    ensures FindBv(prefix + bv + "/" + rest) == Some(bv)
  {
    var url := prefix + bv + "/" + rest;
    var p := |prefix| - 1;
    assert url[p..p + |bv| + 2] == "/" + bv + "/";
    MatchAtIff(url, p, bv);
    NoMatchInPrefix(prefix, url, 0);
  }

  lemma {:induction false} NoMatchInPrefix(prefix: string, url: string, q: nat)
    requires prefix != [] && 'B' !in prefix && q <= |prefix| - 1
    requires |prefix| < |url| && url[..|prefix|] == prefix
    requires MatchAt(url, |prefix| - 1).Some?
    ensures FindBvFrom(url, q) == MatchAt(url, |prefix| - 1)
    decreases |prefix| - q
  {
    if q < |prefix| - 1 {
      assert url[q + 1] == prefix[q + 1];
      NoMatchInPrefix(prefix, url, q + 1);
    }
  }

  /** The id is recovered from the canonical video page URL. */
  lemma VideoPageRoundTrip(bv: string, rest: string)
    requires IsBvId(bv)
    ensures FindBv(VideoPagePrefix + bv + "/" + rest) == Some(bv)
  {
    assert 'B' !in VideoPagePrefix by {
      forall i | 0 <= i < |VideoPagePrefix| ensures VideoPagePrefix[i] != 'B' {
      }
    }
    FindBvAfterPrefix(VideoPagePrefix, bv, rest);
  }

  // ---------------------------------------------------------------------------
  // The comment API URL

  const ApiPrefix: string := "https://api.bilibili.com/x/v2/reply?pn="
  const ApiMiddle: string := "&type=1&oid="
  const ApiSuffix: string := "&sort=1"

  /** `"https://api.bilibili.com/x/v2/reply?pn={}&type=1&oid=" + bv + '&sort=1'`. */
  function ApiUrl(bv: string): string
  {
    ApiPrefix + "{}" + ApiMiddle + bv + ApiSuffix
  }

  /** `api_url.format(page)` for the URL of `bv`: the page number in the slot. */
  function PageUrl(bv: string, page: int): string
  {
    ApiPrefix + PyStr.IntToString(page) + ApiMiddle + bv + ApiSuffix
  }

  /** No brace in `s`. */
  predicate BraceFree(s: string)
  {
    forall i :: 0 <= i < |s| ==> s[i] != '{' && s[i] != '}'
  }

  /** The fixed parts of the template and every BV id are brace-free. */
  lemma TailIsBraceFree(bv: string)
    requires IsBvId(bv)
    ensures BraceFree(ApiMiddle + bv + ApiSuffix)
  {
    var t := ApiMiddle + bv + ApiSuffix;
    assert BraceFree(ApiMiddle) && BraceFree(ApiSuffix);
    forall i | 0 <= i < |t| ensures t[i] != '{' && t[i] != '}' {
      if i < |ApiMiddle| {
        assert t[i] == ApiMiddle[i];
      } else if i < |ApiMiddle| + |bv| {
        assert t[i] == bv[i - |ApiMiddle|];
      } else {
        assert t[i] == ApiSuffix[i - |ApiMiddle| - |bv|];
      }
    }
  }

  /** For a BV id the template's only braces are its `{}` slot, so
      `.format(page)` fills that slot and changes nothing else. */
  lemma ApiUrlHasOneSlot(bv: string, page: int)
    requires IsBvId(bv)
    ensures ApiUrl(bv)[|ApiPrefix|..|ApiPrefix| + 2] == "{}"
    ensures forall i :: 0 <= i < |ApiUrl(bv)| && (ApiUrl(bv)[i] == '{' || ApiUrl(bv)[i] == '}') ==>
      i == |ApiPrefix| || i == |ApiPrefix| + 1
    ensures PageUrl(bv, page) ==
      ApiUrl(bv)[..|ApiPrefix|] + PyStr.IntToString(page) + ApiUrl(bv)[|ApiPrefix| + 2..]
  {
    var t := ApiMiddle + bv + ApiSuffix;
    assert ApiUrl(bv) == ApiPrefix + "{}" + t;
    PrefixIsBraceFree();
    TailIsBraceFree(bv);
    OnlySlotBraces(ApiPrefix, t);
  }

  lemma PrefixIsBraceFree()
    ensures BraceFree(ApiPrefix)
  {
  }

  /** Between two brace-free parts, the braces of `{}` are the only ones. */
  lemma OnlySlotBraces(a: string, b: string)
    requires BraceFree(a) && BraceFree(b)
    ensures (a + "{}" + b)[|a|..|a| + 2] == "{}"
    ensures forall i :: 0 <= i < |a + "{}" + b| && i != |a| && i != |a| + 1 ==>
      (a + "{}" + b)[i] != '{' && (a + "{}" + b)[i] != '}'
    ensures (a + "{}" + b)[..|a|] == a && (a + "{}" + b)[|a| + 2..] == b
  {
    var u := a + "{}" + b;
    forall i | 0 <= i < |u| && i != |a| && i != |a| + 1 ensures u[i] != '{' && u[i] != '}' {
      if i < |a| {
        assert u[i] == a[i];
      } else {
        assert u[i] == b[i - |a| - 2];
      }
    }
    assert u[..|a|] == a;
    assert u[|a| + 2..] == b;
  }

  // ---------------------------------------------------------------------------
  // get_url_info

  /** The triple `get_url_info` returns. */
  datatype UrlInfo = UrlInfo(apiUrl: string, bv: string, title: Option<string>)

  /** `IndexError` from `findall(url)[0]` when the URL holds no BV id. */
  datatype UrlError = NoBvId

  /** `if video_title: video_title = self.sanitize_title(video_title)`. */
  function SanitizeIfTruthy(title: Option<string>): Option<string>
  {
    match title
    case Some(t) => if t != "" then Some(Titles.SanitizeTitle(t)) else title
    case None => None
  }

  function GetUrlInfo(url: string, fetchedTitle: Option<string>): Result<UrlInfo, UrlError>
  {
    match FindBv(url)
    case None => Failure(NoBvId)
    case Some(bv) => Success(UrlInfo(ApiUrl(bv), bv, SanitizeIfTruthy(fetchedTitle)))
  }

  /** `get_url_info` fails exactly when the pattern fits nowhere in the URL;
      otherwise it returns the leftmost id, the API URL built from it, and
      the fetched title made safe as a file name: each forbidden character
      replaced, every other one kept in place, absent staying absent. */
  lemma GetUrlInfoSpec(url: string, fetchedTitle: Option<string>)
    ensures GetUrlInfo(url, fetchedTitle).Failure? <==>
      forall p: nat, bv :: p <= |url| ==> !PatternAt(url, p, bv)
    ensures GetUrlInfo(url, fetchedTitle).Success? ==>
      var info := GetUrlInfo(url, fetchedTitle).value;
      IsBvId(info.bv) && Some(info.bv) == FindBv(url) && info.apiUrl == ApiUrl(info.bv) &&
      info.title.Some? == fetchedTitle.Some? &&
      (info.title.Some? ==>
        |info.title.value| == |fetchedTitle.value| &&
        forall i :: 0 <= i < |info.title.value| ==>
          info.title.value[i] !in Titles.FileNameInvalid &&
          (fetchedTitle.value[i] !in Titles.FileNameInvalid ==> info.title.value[i] == fetchedTitle.value[i]))
  {
    FindBvIsLeftmost(url);
    if FindBv(url).Some? {
      var p: nat :| p <= |url| && PatternAt(url, p, FindBv(url).value) &&
        forall q :: 0 <= q < p ==> MatchAt(url, q) == None;
    }
    if fetchedTitle.Some? {
      Titles.SanitizeTitleSafe(fetchedTitle.value);
    }
  }
}
