/** `BiliCommentsScraper.sanitize_title`: a video title made usable as a file
    name by replacing every character from a fixed set with `_`. */
module Titles {

  /** The characters the source's pattern `[\/:*?"<>|]` matches. Inside a
      character class `\/` is an escaped slash, so the backslash itself is not
      among them. */
  const AsWrittenInvalid: set<char> := {'/', ':', '*', '?', '"', '<', '>', '|'}

  /** The characters a file name may not hold on Windows: the set above plus
      the backslash. */
  const FileNameInvalid: set<char> := AsWrittenInvalid + {'\\'}

  /** `re.sub(pattern, '_', title)` for a pattern that is one character class:
      every character of `invalid` becomes `_`, every other one stays, and the
      length is kept. */
  function ReplaceWithUnderscore(title: string, invalid: set<char>): (r: string)
    ensures |r| == |title|
    ensures forall i :: 0 <= i < |title| && title[i] in invalid ==> r[i] == '_'
    ensures forall i :: 0 <= i < |title| && title[i] !in invalid ==> r[i] == title[i]
  {
    if title == [] then []
    else [if title[0] in invalid then '_' else title[0]] + ReplaceWithUnderscore(title[1..], invalid)
  }

  /** `sanitize_title` exactly as written (backslashes survive). */
  function SanitizeTitleAsWritten(title: string): string
  {
    ReplaceWithUnderscore(title, AsWrittenInvalid)
  }

  /** `sanitize_title` with the backslash added to the pattern, as a file-name
      cleaner needs; the rest of this model uses this one. */
  function SanitizeTitle(title: string): string
  {
    ReplaceWithUnderscore(title, FileNameInvalid)
  }

  /** No character of `invalid` is left, provided `_` itself is allowed. */
  lemma NoInvalidCharLeft(title: string, invalid: set<char>)
    requires '_' !in invalid
    ensures forall i :: 0 <= i < |title| ==> ReplaceWithUnderscore(title, invalid)[i] !in invalid
  {
  }

  /** Replacing twice is replacing once: a result holds no invalid character,
      and a title without one is returned unchanged. */
  lemma {:induction false} ReplaceIdempotent(title: string, invalid: set<char>)
    requires '_' !in invalid
    ensures ReplaceWithUnderscore(ReplaceWithUnderscore(title, invalid), invalid)
            == ReplaceWithUnderscore(title, invalid)
  {
    var once := ReplaceWithUnderscore(title, invalid);
    NoInvalidCharLeft(title, invalid);
    CleanTitleUnchanged(once, invalid);
  }

  /** A title with no invalid character is its own sanitised form. */
  lemma {:induction false} CleanTitleUnchanged(title: string, invalid: set<char>)
    requires forall i :: 0 <= i < |title| ==> title[i] !in invalid
    ensures ReplaceWithUnderscore(title, invalid) == title
  {
    if title != [] {
      CleanTitleUnchanged(title[1..], invalid);
    }
  }

  /** The sanitised title keeps the length of the input, holds no character a
      Windows file name forbids, and keeps every other character in place. */
  lemma SanitizeTitleSafe(title: string)
    ensures |SanitizeTitle(title)| == |title|
    ensures forall i :: 0 <= i < |title| ==> SanitizeTitle(title)[i] !in FileNameInvalid
    ensures forall i :: 0 <= i < |title| && title[i] !in FileNameInvalid ==> SanitizeTitle(title)[i] == title[i]
  {
    NoInvalidCharLeft(title, FileNameInvalid);
  }

  /** Sanitising a sanitised title changes nothing. */
  lemma SanitizeTitleIdempotent(title: string)
    ensures SanitizeTitle(SanitizeTitle(title)) == SanitizeTitle(title)
  {
    ReplaceIdempotent(title, FileNameInvalid);
  }

  /** As written, the source keeps its promise for the eight characters of its
      pattern and is idempotent too. */
  lemma SanitizeTitleAsWrittenProperties(title: string)
    ensures |SanitizeTitleAsWritten(title)| == |title|
    ensures forall i :: 0 <= i < |title| ==> SanitizeTitleAsWritten(title)[i] !in AsWrittenInvalid
    ensures SanitizeTitleAsWritten(SanitizeTitleAsWritten(title)) == SanitizeTitleAsWritten(title)
  {
    NoInvalidCharLeft(title, AsWrittenInvalid);
    ReplaceIdempotent(title, AsWrittenInvalid);
  }

  /** The discrepancy: as written, a title holding a backslash keeps it, so the
      result can still name a sub-directory on Windows. */
  lemma BackslashSurvivesAsWritten()
    ensures SanitizeTitleAsWritten("a\\b") == "a\\b"
    ensures '\\' in FileNameInvalid && SanitizeTitle("a\\b") == "a_b"
  {
    CleanTitleUnchanged("a\\b", AsWrittenInvalid);
    var r := SanitizeTitle("a\\b");
    assert r[0] == 'a' && r[1] == '_' && r[2] == 'b';
  }
}
