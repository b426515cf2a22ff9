/** `BiliCommentsScraper.convert_to_json_dict_list`: every raw comment the API
    returned is projected to a fixed record with its replies attached, and the
    list is sorted by `like`, most-liked first, equal counts in input order
    (Python's `sorted(..., reverse=True)` is stable). */
module Comments {
  import opened Wrappers

  /** One API reply object. The fields the scraper reads are `member.uname`,
      `content.message`, `like`, `ctime` and `replies` (`None` for JSON null);
      `others` holds every remaining key (`rpid`, `oid`, `mid`, ...) with its
      value as JSON text. `extract_data` ignores `others`, but equality of
      whole objects, which `remove_duplicates` uses, compares it. */
  datatype RawComment = RawComment(
    uname: string,
    message: string,
    like: int,
    ctime: int,
    replies: Option<seq<RawComment>>,
    others: map<string, string>)

  /** The dictionary `extract_data` builds. `posttime` keeps the Unix time;
      its rendering as a Beijing-time string is not modelled. */
  datatype Record = Record(username: string, comment: string, like: int, posttime: int)

  /** A top-level entry of the output: its record plus `replies`. */
  datatype Formatted = Formatted(record: Record, replies: seq<Record>)

  /** `extract_data(item)`. */
  function Extract(item: RawComment): Record
  {
    Record(item.uname, item.message, item.like, item.ctime)
  }

  /** `[extract_data(reply) for reply in item['replies']]`. */
  function ExtractAll(replies: seq<RawComment>): (r: seq<Record>)
    ensures |r| == |replies|
  {
    seq(|replies|, i requires 0 <= i < |replies| => Extract(replies[i]))
  }

  /** Lines 188-192 for one item: `replies` stays `[]` unless the item's
      replies are truthy (neither null nor empty). */
  function FormatItem(item: RawComment): Formatted
  {
    match item.replies
    case None => Formatted(Extract(item), [])
    case Some(rs) => Formatted(Extract(item), if rs == [] then [] else ExtractAll(rs))
  }

  function Like(f: Formatted): int
  {
    f.record.like
  }

  /** The entries of `s` with `like == k`, in order. */
  function WithLike(s: seq<Formatted>, k: int): (r: seq<Formatted>)
    ensures |r| <= |s|
  {
    if s == [] then []
    else (if Like(s[0]) == k then [s[0]] else []) + WithLike(s[1..], k)
  }

  /** Most-liked first. */
  predicate LikeNonIncreasing(s: seq<Formatted>)
  {
    forall i, j :: 0 <= i < j < |s| ==> Like(s[i]) >= Like(s[j])
  }

  /** `x` placed before the first entry that does not have more likes. */
  function InsertByLike(x: Formatted, s: seq<Formatted>): (r: seq<Formatted>)
    ensures multiset(r) == multiset(s) + multiset{x}
  {
    if s == [] || Like(s[0]) <= Like(x) then [x] + s
    else
      assert s == [s[0]] + s[1..];
      [s[0]] + InsertByLike(x, s[1..])
  }

  /** Inserting into a list sorted most-liked first keeps it sorted. */
  lemma {:induction false} InsertKeepsSorted(x: Formatted, s: seq<Formatted>)
    requires LikeNonIncreasing(s)
    ensures LikeNonIncreasing(InsertByLike(x, s))
  {
    if s == [] || Like(s[0]) <= Like(x) {
      forall j | 0 <= j < |s| ensures Like(s[j]) <= Like(x) {
      }
      ConsSorted(x, s);
    } else {
      TailNonIncreasing(s);
      InsertKeepsSorted(x, s[1..]);
      InsertBounded(x, s[1..], Like(s[0]));
      ConsSorted(s[0], InsertByLike(x, s[1..]));
    }
  }

  /** Every entry of an insertion result is the inserted one or an old one. */
  lemma InsertBounded(x: Formatted, s: seq<Formatted>, m: int)
    requires Like(x) <= m && forall j :: 0 <= j < |s| ==> Like(s[j]) <= m
    ensures forall j :: 0 <= j < |InsertByLike(x, s)| ==> Like(InsertByLike(x, s)[j]) <= m
  {
    var t := InsertByLike(x, s);
    forall j | 0 <= j < |t| ensures Like(t[j]) <= m {
      assert t[j] in multiset(t);
      if t[j] != x {
        assert t[j] in multiset(s);
        var k :| 0 <= k < |s| && s[k] == t[j];
      }
    }
  }

  /** An entry with at least as many likes as every entry of a sorted list can
      go in front of it. */
  lemma ConsSorted(h: Formatted, t: seq<Formatted>)
    requires LikeNonIncreasing(t) && forall j :: 0 <= j < |t| ==> Like(t[j]) <= Like(h)
    ensures LikeNonIncreasing([h] + t)
  {
    var r := [h] + t;
    forall i, j | 0 <= i < j < |r| ensures Like(r[i]) >= Like(r[j]) {
      assert r[j] == t[j - 1];
      if i > 0 {
        assert r[i] == t[i - 1];
      }
    }
  }

  /** `sorted(s, key=lambda item: item['like'], reverse=True)`, as a stable
      insertion sort. */
  function SortByLikeDescending(s: seq<Formatted>): (r: seq<Formatted>)
    ensures multiset(r) == multiset(s)
    ensures LikeNonIncreasing(r)
  {
    if s == [] then []
    else
      assert s == [s[0]] + s[1..];
      InsertKeepsSorted(s[0], SortByLikeDescending(s[1..]));
      InsertByLike(s[0], SortByLikeDescending(s[1..]))
  }

  /** Inserting `x` keeps, for every like count, the entries with that count
      in order, with `x` in front of the ones it came before. */
  lemma {:induction false} InsertKeepsOrderPerLike(x: Formatted, s: seq<Formatted>, k: int)
    ensures WithLike(InsertByLike(x, s), k) == WithLike([x] + s, k)
  {
    if s != [] && Like(s[0]) > Like(x) {
      InsertKeepsOrderPerLike(x, s[1..], k);
      var r := InsertByLike(x, s);
      assert r[1..] == InsertByLike(x, s[1..]);
      assert ([x] + s)[1..] == s;
      assert ([x] + s[1..])[1..] == s[1..];
    }
  }

  /** The sort is stable: the entries sharing a like count come out in the
      order they went in. */
  lemma {:induction false} SortIsStable(s: seq<Formatted>, k: int)
    ensures WithLike(SortByLikeDescending(s), k) == WithLike(s, k)
  {
    if s != [] {
      SortIsStable(s[1..], k);
      InsertKeepsOrderPerLike(s[0], SortByLikeDescending(s[1..]), k);
      assert ([s[0]] + SortByLikeDescending(s[1..]))[1..] == SortByLikeDescending(s[1..]);
    }
  }

  lemma {:induction false} WithLikeMembers(s: seq<Formatted>, k: int, x: Formatted)
    ensures x in WithLike(s, k) <==> x in s && Like(x) == k
  {
    if s != [] {
      WithLikeMembers(s[1..], k, x);
      assert s == [s[0]] + s[1..];
    }
  }

  /** The first entry of a list sorted most-liked first heads its own group. */
  lemma WithLikeOfHead(s: seq<Formatted>)
    requires s != []
    ensures WithLike(s, Like(s[0])) == [s[0]] + WithLike(s[1..], Like(s[0]))
    ensures forall k :: k != Like(s[0]) ==> WithLike(s, k) == WithLike(s[1..], k)
  {
  }

  /** A stable sort by likes has only one possible outcome: any list ordered
      most-liked first whose per-count groups equal the input's is exactly
      SortByLikeDescending of the input. */
  lemma {:induction false} StableSortUnique(a: seq<Formatted>, b: seq<Formatted>)
    requires LikeNonIncreasing(a) && LikeNonIncreasing(b)
    requires forall k :: WithLike(a, k) == WithLike(b, k)
    ensures a == b
    decreases |a|
  {
    if a != [] {
      SameHead(a, b);
      SameTailGroups(a, b);
      TailNonIncreasing(a);
      TailNonIncreasing(b);
      StableSortUnique(a[1..], b[1..]);
      SameHeadAndTail(a, b);
    } else if b != [] {
      SameHead(b, a);
    }
  }

  /** Two lists sorted most-liked first with the same groups start alike. */
  lemma SameHead(a: seq<Formatted>, b: seq<Formatted>)
    requires a != []
    requires LikeNonIncreasing(a) && LikeNonIncreasing(b)
    requires forall k :: WithLike(a, k) == WithLike(b, k)
    ensures b != [] && a[0] == b[0]
  {
    var ka := Like(a[0]);
    WithLikeMembers(a, ka, a[0]);
    assert a[0] in WithLike(b, ka);
    WithLikeMembers(b, ka, a[0]);
    var kb := Like(b[0]);
    WithLikeMembers(b, kb, b[0]);
    assert b[0] in WithLike(a, kb);
    WithLikeMembers(a, kb, b[0]);
    assert ka == kb by {
      var i :| 0 <= i < |a| && a[i] == b[0];
      var j :| 0 <= j < |b| && b[j] == a[0];
      assert Like(a[0]) >= Like(a[i]);
      assert Like(b[0]) >= Like(b[j]);
    }
    WithLikeOfHead(a);
    WithLikeOfHead(b);
    assert a[0] == WithLike(a, ka)[0] == WithLike(b, ka)[0] == b[0];
  }

  /** Removing the same head from both lists keeps their groups equal. */
  lemma SameTailGroups(a: seq<Formatted>, b: seq<Formatted>)
    requires a != [] && b != [] && a[0] == b[0]
    requires forall k :: WithLike(a, k) == WithLike(b, k)
    ensures forall k :: WithLike(a[1..], k) == WithLike(b[1..], k)
  {
    WithLikeOfHead(a);
    WithLikeOfHead(b);
    forall k ensures WithLike(a[1..], k) == WithLike(b[1..], k) {
      if k == Like(a[0]) {
        assert WithLike(a[1..], k) == WithLike(a, k)[1..];
        assert WithLike(b[1..], k) == WithLike(b, k)[1..];
      }
    }
  }

  lemma TailNonIncreasing(s: seq<Formatted>)
    requires s != [] && LikeNonIncreasing(s)
    ensures LikeNonIncreasing(s[1..])
  {
    forall i, j | 0 <= i < j < |s[1..]| ensures Like(s[1..][i]) >= Like(s[1..][j]) {
      assert s[1..][i] == s[i + 1] && s[1..][j] == s[j + 1];
    }
  }

  lemma SameHeadAndTail<T>(a: seq<T>, b: seq<T>)
    requires a != [] && b != [] && a[0] == b[0] && a[1..] == b[1..]
    ensures a == b
  {
    assert a == [a[0]] + a[1..];
    assert b == [b[0]] + b[1..];
  }

  /** What a stable most-liked-first sort must return for `s` is exactly
      SortByLikeDescending(s). */
  lemma StableSortIsSortByLike(s: seq<Formatted>, t: seq<Formatted>)
    requires LikeNonIncreasing(t)
    requires forall k :: WithLike(t, k) == WithLike(s, k)
    ensures t == SortByLikeDescending(s)
  {
    forall k ensures WithLike(t, k) == WithLike(SortByLikeDescending(s), k) {
      SortIsStable(s, k);
    }
    StableSortUnique(t, SortByLikeDescending(s));
  }

  /** The projections of all items, in input order. */
  function FormatAll(data: seq<RawComment>): (r: seq<Formatted>)
    ensures |r| == |data|
  {
    seq(|data|, i requires 0 <= i < |data| => FormatItem(data[i]))
  }

  /** `convert_to_json_dict_list(data_all)`: the loop building
      `formatted_list`, then the sort. */
  method ConvertToJsonDictList(data: seq<RawComment>) returns (r: seq<Formatted>)
    ensures multiset(r) == multiset(FormatAll(data))
    ensures LikeNonIncreasing(r)
    ensures forall k :: WithLike(r, k) == WithLike(FormatAll(data), k)
    ensures r == SortByLikeDescending(FormatAll(data))
  {
    var formatted: seq<Formatted> := [];
    for i := 0 to |data|
      invariant |formatted| == i
      invariant forall j :: 0 <= j < i ==> formatted[j] == FormatItem(data[j])
    {
      var item := data[i];
      var entry := Formatted(Extract(item), []);
      if item.replies.Some? && item.replies.value != [] {
        entry := Formatted(entry.record, ExtractAll(item.replies.value));
      }
      formatted := formatted + [entry];
    }
    assert formatted == FormatAll(data);
    r := SortByLikeDescending(formatted);
    forall k ensures WithLike(r, k) == WithLike(formatted, k) {
      SortIsStable(formatted, k);
    }
  }

  /** `replies` is empty exactly when the item's replies are null or empty,
      and otherwise holds the projection of every reply, in order. */
  lemma FormatItemReplies(item: RawComment)
    ensures FormatItem(item).record == Extract(item)
    ensures FormatItem(item).replies == [] <==> item.replies.None? || item.replies.value == []
    ensures item.replies.Some? ==>
      |FormatItem(item).replies| == |item.replies.value| &&
      forall i :: 0 <= i < |item.replies.value| ==>
        FormatItem(item).replies[i] == Extract(item.replies.value[i])
  {
  }
}
