/** `BiliCommentsScraper.remove_duplicates`: element `n` of the list is kept
    only when it does not occur again after position `n`, so of each value the
    LAST occurrence survives, in the order of the input. */
module Dedup {

  /** No value occurs twice. */
  predicate NoDuplicates<T(==)>(s: seq<T>)
  {
    forall i, j :: 0 <= i < j < |s| ==> s[i] != s[j]
  }

  /** `[i for n, i in enumerate(s) if i not in s[n + 1:]]`. */
  function RemoveDuplicates<T(==)>(s: seq<T>): (r: seq<T>)
    ensures forall i :: 0 <= i < |r| ==> r[i] in s
    ensures forall i :: 0 <= i < |s| ==> s[i] in r
    ensures NoDuplicates(r)
    ensures |r| <= |s|
  {
    if s == [] then []
    else if s[0] in s[1..] then RemoveDuplicates(s[1..])
    else [s[0]] + RemoveDuplicates(s[1..])
  }

  /** The position of the last occurrence of `x` in `s`. */
  function LastIndex<T(==)>(s: seq<T>, x: T): (n: nat)
    requires x in s
    ensures n < |s| && s[n] == x && x !in s[n + 1..]
  {
    if x in s[1..] then 1 + LastIndex(s[1..], x) else 0
  }

  /** Position `n` is kept exactly when it is the last occurrence of its value. */
  lemma KeptPositionsAreLastOccurrences<T>(s: seq<T>, n: nat)
    requires n < |s|
    ensures s[n] !in s[n + 1..] <==> LastIndex(s, s[n]) == n
  {
    var m := LastIndex(s, s[n]);
    if m > n {
      assert s[m] == s[n + 1..][m - n - 1];
    }
  }

  /** The result lists each value of the input once, at its last occurrence,
      and in the order of those last occurrences: it is the subsequence of the
      input made of the positions `n` with `s[n] !in s[n + 1..]`. */
  lemma {:induction false} KeepsLastOccurrencesInOrder<T>(s: seq<T>)
    ensures forall i, j :: 0 <= i < j < |RemoveDuplicates(s)| ==>
      LastIndex(s, RemoveDuplicates(s)[i]) < LastIndex(s, RemoveDuplicates(s)[j])
  {
    if s != [] {
      var rest := RemoveDuplicates(s[1..]);
      KeepsLastOccurrencesInOrder(s[1..]);
      forall y | y in rest
        ensures LastIndex(s, y) == 1 + LastIndex(s[1..], y)
      {
      }
    }
  }

  /** A list without duplicates is left as it is. */
  lemma {:induction false} NoDuplicatesUnchanged<T>(s: seq<T>)
    requires NoDuplicates(s)
    ensures RemoveDuplicates(s) == s
  {
    if s != [] {
      assert s[0] !in s[1..] by {
        forall k | 1 <= k < |s| ensures s[k] != s[0] {
        }
      }
      assert NoDuplicates(s[1..]) by {
        forall i, j | 0 <= i < j < |s| - 1 ensures s[1..][i] != s[1..][j] {
          assert s[1..][i] == s[i + 1] && s[1..][j] == s[j + 1];
        }
      }
      NoDuplicatesUnchanged(s[1..]);
      assert s == [s[0]] + s[1..];
    }
  }

  /** Removing duplicates twice is removing them once. */
  lemma RemoveDuplicatesIdempotent<T>(s: seq<T>)
    ensures RemoveDuplicates(RemoveDuplicates(s)) == RemoveDuplicates(s)
  {
    NoDuplicatesUnchanged(RemoveDuplicates(s));
  }

  /** Every element is a value of `s`, and last occurrences strictly increase. */
  ghost predicate OrderedByLastOccurrence<T>(s: seq<T>, a: seq<T>)
  {
    (forall i :: 0 <= i < |a| ==> a[i] in s) &&
    forall i, j :: 0 <= i < j < |a| ==> LastIndex(s, a[i]) < LastIndex(s, a[j])
  }

  /** The three facts above pin the result down: any list with the input's
      values, ordered by last occurrence, IS the result. */
  lemma DeterminedByLastOccurrences<T>(s: seq<T>, t: seq<T>)
    requires forall x :: x in t <==> x in s
    requires OrderedByLastOccurrence(s, t)
    ensures t == RemoveDuplicates(s)
  {
    KeepsLastOccurrencesInOrder(s);
    SameOrderedSet(s, t, RemoveDuplicates(s));
  }

  lemma FirstIsMember<T>(b: seq<T>)
    ensures b != [] ==> b[0] in b
  {
  }

  lemma HeadIsFirst<T>(s: seq<T>, a: seq<T>, x: T)
    requires OrderedByLastOccurrence(s, a)
    requires x in a && x != a[0]
    ensures x in s && a[0] in s && LastIndex(s, a[0]) < LastIndex(s, x)
    ensures x in a[1..]
  {
    var i :| 0 <= i < |a| && a[i] == x;
    assert a[1..][i - 1] == x;
  }

  lemma TailOrdered<T>(s: seq<T>, a: seq<T>)
    requires OrderedByLastOccurrence(s, a) && a != []
    ensures OrderedByLastOccurrence(s, a[1..])
    ensures a[0] !in a[1..]
  {
    forall i, j | 0 <= i < j < |a| - 1 ensures LastIndex(s, a[1..][i]) < LastIndex(s, a[1..][j]) {
      assert a[1..][i] == a[i + 1] && a[1..][j] == a[j + 1];
    }
  }

  /** Two lists, each strictly ordered by last occurrence in `s` and holding
      the same values, are equal. */
  lemma {:induction false} SameOrderedSet<T>(s: seq<T>, a: seq<T>, b: seq<T>)
    requires forall x :: x in a <==> x in b
    requires OrderedByLastOccurrence(s, a) && OrderedByLastOccurrence(s, b)
    ensures a == b
    decreases |a|
  {
    if a == [] {
      FirstIsMember(b);
    } else {
      assert a[0] in b;
      assert b[0] in a;
      if a[0] != b[0] {
        HeadIsFirst(s, a, b[0]);
        HeadIsFirst(s, b, a[0]);
        assert false;
      }
      TailOrdered(s, a);
      TailOrdered(s, b);
      forall x ensures x in a[1..] <==> x in b[1..] {
        if x in a[1..] {
          assert x in a && x != a[0];
          HeadIsFirst(s, b, x);
        }
        if x in b[1..] {
          assert x in b && x != b[0];
          HeadIsFirst(s, a, x);
        }
      }
      SameOrderedSet(s, a[1..], b[1..]);
      assert a == [a[0]] + a[1..];
      assert b == [b[0]] + b[1..];
    }
  }
}
