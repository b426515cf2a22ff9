/** The Netscape `cookies.txt` branch of `read_cookie_from_file_as_dict_list`:
    the file's text is split into lines; comment lines and blank lines are
    skipped; every other line must hold exactly seven tab-separated fields and
    becomes one cookie. The file itself is a parameter (`text`). */
module Cookies {
  import opened Wrappers
  import opened PyStr

  /** The dictionary built at line 35 of the source. */
  datatype Cookie = Cookie(
    domain: string,
    path: string,
    name: string,
    value: string,
    secure: bool,
    expiry: Option<int>)

  /** The `ValueError`s the loop can raise: unpacking into seven names, and
      `int(expiry)`. Either one ends the whole read. */
  datatype CookieError =
    | WrongFieldCount(fields: nat)
    | InvalidExpiry(text: string)

  const Tab: char := '\t'
  const Newline: char := '\n'

  /** `line.startswith('#') or not line.strip()`. */
  predicate IsSkipped(line: string)
  {
    (|line| > 0 && line[0] == '#') || Strip(line) == []
  }

  /** `True if secure.lower() == 'true' else False`. */
  predicate IsTrueText(field: string)
  {
    Lower(field) == "true"
  }

  /** `int(expiry) if expiry else None`. */
  function ParseExpiry(field: string): Result<Option<int>, CookieError>
  {
    if field == "" then Success(None)
    else match ParseInt(field)
      case None => Failure(InvalidExpiry(field))
      case Some(n) => Success(Some(n))
  }

  /** Lines 32-35 for one line that is not skipped. */
  function ParseLine(line: string): Result<Cookie, CookieError>
  {
    var f := Split(line, Tab);
    if |f| != 7 then Failure(WrongFieldCount(|f|))
    else match ParseExpiry(f[4])
      case Failure(e) => Failure(e)
      case Success(expiry) => Success(Cookie(f[0], f[2], f[5], f[6], IsTrueText(f[3]), expiry))
  }

  /** The loop over all lines, as a value: the cookies of the lines that are
      not skipped, in order, or the error of the first line that raises. */
  function ParseCookieLines(lines: seq<string>): Result<seq<Cookie>, CookieError>
  {
    if lines == [] then Success([])
    else
      var last := lines[|lines| - 1];
      match ParseCookieLines(lines[..|lines| - 1])
      case Failure(e) => Failure(e)
      case Success(cookies) =>
        if IsSkipped(last) then Success(cookies)
        else match ParseLine(last)
          case Failure(e) => Failure(e)
          case Success(c) => Success(cookies + [c])
  }

  /** The lines that are not skipped, in order. */
  function KeptLines(lines: seq<string>): (kept: seq<string>)
    ensures forall k :: 0 <= k < |kept| ==> !IsSkipped(kept[k])
  {
    if lines == [] then []
    else
      var last := lines[|lines| - 1];
      KeptLines(lines[..|lines| - 1]) + (if IsSkipped(last) then [] else [last])
  }

  /** The `.txt` branch: `for line in f.read().split('\n')`, with `text` the
      file's contents. */
  method ReadNetscapeCookies(text: string) returns (r: Result<seq<Cookie>, CookieError>)
    ensures r == ParseCookieLines(Split(text, Newline))
  {
    var lines := Split(text, Newline);
    var cookies: seq<Cookie> := [];
    var i := 0;
    while i < |lines|
      invariant 0 <= i <= |lines|
      invariant ParseCookieLines(lines[..i]) == Success(cookies)
    {
      var line := lines[i];
      ParseCookieLinesStep(lines, i);
      if !(|line| > 0 && line[0] == '#') && Strip(line) != [] {
        var fields := Split(line, Tab);
        if |fields| != 7 {
          r := Failure(WrongFieldCount(|fields|));
          FailureIsFinal(lines, i + 1);
          return;
        }
        var secure := Lower(fields[3]) == "true";
        var expiry: Option<int> := None;
        if fields[4] != "" {
          var n := ParseInt(fields[4]);
          if n.None? {
            r := Failure(InvalidExpiry(fields[4]));
            FailureIsFinal(lines, i + 1);
            return;
          }
          expiry := Some(n.value);
        }
        var cookie := Cookie(fields[0], fields[2], fields[5], fields[6], secure, expiry);
        cookies := cookies + [cookie];
      }
      i := i + 1;
    }
    assert lines[..|lines|] == lines;
    r := Success(cookies);
  }

  /** What one more line does to the read of the lines before it. */
  lemma ParseCookieLinesStep(lines: seq<string>, i: nat)
    requires i < |lines|
    ensures var before := ParseCookieLines(lines[..i]);
      var after := ParseCookieLines(lines[..i + 1]);
      before.Success? ==>
        (IsSkipped(lines[i]) ==> after == before) &&
        (!IsSkipped(lines[i]) && ParseLine(lines[i]).Failure? ==> after == Failure(ParseLine(lines[i]).error)) &&
        (!IsSkipped(lines[i]) && ParseLine(lines[i]).Success? ==>
          after == Success(before.value + [ParseLine(lines[i]).value]))
  {
    assert lines[..i + 1][..i] == lines[..i];
  }

  /** Once a prefix of the lines raises, the whole read raises the same error. */
  lemma {:induction false} FailureIsFinal(lines: seq<string>, i: nat)
    requires i <= |lines|
    requires ParseCookieLines(lines[..i]).Failure?
    ensures ParseCookieLines(lines) == ParseCookieLines(lines[..i])
    decreases |lines|
  {
    if i < |lines| {
      var init := lines[..|lines| - 1];
      assert init[..i] == lines[..i];
      FailureIsFinal(init, i);
    } else {
      assert lines[..i] == lines;
    }
  }

  /** Skipped lines contribute nothing and every other line contributes
      exactly one cookie, in line order. */
  lemma {:induction false} CookiesFollowKeptLines(lines: seq<string>)
    ensures ParseCookieLines(lines).Success? ==>
      |ParseCookieLines(lines).value| == |KeptLines(lines)| &&
      forall k :: 0 <= k < |KeptLines(lines)| ==>
        ParseLine(KeptLines(lines)[k]) == Success(ParseCookieLines(lines).value[k])
  {
    if lines != [] && ParseCookieLines(lines).Success? {
      var init := lines[..|lines| - 1];
      var last := lines[|lines| - 1];
      CookiesFollowKeptLines(init);
      var cookies := ParseCookieLines(init).value;
      if !IsSkipped(last) {
        var c := ParseLine(last).value;
        assert ParseCookieLines(lines).value == cookies + [c];
        assert KeptLines(lines) == KeptLines(init) + [last];
      }
    }
  }

  /** Every one of `lines` parses on its own. */
  predicate AllParse(lines: seq<string>)
  {
    forall k :: 0 <= k < |lines| ==> ParseLine(lines[k]).Success?
  }

  lemma AllParseAppend(lines: seq<string>, line: string)
    ensures AllParse(lines + [line]) <==> AllParse(lines) && ParseLine(line).Success?
  {
    var ext := lines + [line];
    assert ext[|lines|] == line;
    assert forall k :: 0 <= k < |lines| ==> ext[k] == lines[k];
  }

  /** The read succeeds exactly when every kept line parses. */
  lemma {:induction false} SucceedsIffEveryKeptLineParses(lines: seq<string>)
    ensures ParseCookieLines(lines).Success? <==> AllParse(KeptLines(lines))
  {
    if lines != [] {
      var init := lines[..|lines| - 1];
      var last := lines[|lines| - 1];
      SucceedsIffEveryKeptLineParses(init);
      if !IsSkipped(last) {
        assert KeptLines(lines) == KeptLines(init) + [last];
        AllParseAppend(KeptLines(init), last);
      } else {
        assert KeptLines(lines) == KeptLines(init);
        assert ParseCookieLines(lines).Success? == ParseCookieLines(init).Success?;
      }
    }
  }

  /** `k` is the first kept line of `lines` that raises, and it raises `e`. */
  predicate FirstBadKeptLine(lines: seq<string>, k: nat, e: CookieError)
  {
    var kept := KeptLines(lines);
    k < |kept| && ParseLine(kept[k]) == Failure(e) && AllParse(kept[..k])
  }

  /** A failed read reports the error of the first kept line that does not parse. */
  lemma {:induction false} FailsAtFirstBadLine(lines: seq<string>)
    requires ParseCookieLines(lines).Failure?
    ensures exists k :: FirstBadKeptLine(lines, k, ParseCookieLines(lines).error)
  {
    var init := lines[..|lines| - 1];
    var last := lines[|lines| - 1];
    if ParseCookieLines(init).Failure? {
      FailsAtFirstBadLine(init);
      var k :| FirstBadKeptLine(init, k, ParseCookieLines(init).error);
      FirstBadLineExtends(lines, k);
    } else {
      SucceedsIffEveryKeptLineParses(init);
      LastLineIsFirstBad(lines);
    }
  }

  lemma FirstBadLineExtends(lines: seq<string>, k: nat)
    requires lines != [] && ParseCookieLines(lines[..|lines| - 1]).Failure?
    requires FirstBadKeptLine(lines[..|lines| - 1], k, ParseCookieLines(lines[..|lines| - 1]).error)
    ensures FirstBadKeptLine(lines, k, ParseCookieLines(lines).error)
  {
    var init := lines[..|lines| - 1];
    var last := lines[|lines| - 1];
    var kept0 := KeptLines(init);
    var extra := if IsSkipped(last) then [] else [last];
    assert KeptLines(lines) == kept0 + extra;
    assert ParseCookieLines(lines) == ParseCookieLines(init);
    PrefixOfAppend(kept0, extra, k);
  }

  lemma PrefixOfAppend<T>(a: seq<T>, b: seq<T>, k: nat)
    requires k < |a|
    ensures (a + b)[..k] == a[..k] && (a + b)[k] == a[k]
  {
  }

  lemma LastLineIsFirstBad(lines: seq<string>)
    requires lines != [] && ParseCookieLines(lines).Failure?
    requires ParseCookieLines(lines[..|lines| - 1]).Success?
    requires AllParse(KeptLines(lines[..|lines| - 1]))
    ensures FirstBadKeptLine(lines, |KeptLines(lines[..|lines| - 1])|, ParseCookieLines(lines).error)
  {
    var init := lines[..|lines| - 1];
    var last := lines[|lines| - 1];
    var kept0 := KeptLines(init);
    var kept := KeptLines(lines);
    assert !IsSkipped(last) && ParseCookieLines(lines) == Failure(ParseLine(last).error);
    assert kept == kept0 + [last];
    assert kept[|kept0|] == last;
    assert kept[..|kept0|] == kept0;
  }

  /** A line that is neither a comment nor blank and does not hold exactly six
      tabs (seven fields) makes the whole read fail. */
  lemma {:induction false} WrongFieldCountFails(lines: seq<string>, k: nat)
    requires k < |lines| && !IsSkipped(lines[k]) && Count(lines[k], Tab) != 6
    ensures ParseCookieLines(lines).Failure?
    decreases |lines|
  {
    var init := lines[..|lines| - 1];
    if k < |lines| - 1 {
      assert init[k] == lines[k];
      WrongFieldCountFails(init, k);
    } else {
      SplitCount(lines[k], Tab);
    }
  }

  /** How the fields of one line become the cookie: `domain`, `path`, `name`
      and `value` are fields 1, 3, 6 and 7; field 2 is ignored; `secure` holds
      exactly when field 4 lower-cased is `true`; `expiry` is absent exactly
      when field 5 is empty and otherwise is its integer value. */
  lemma ParseLineFields(line: string)
    ensures |Split(line, Tab)| != 7 ==>
      ParseLine(line) == Failure(WrongFieldCount(|Split(line, Tab)|))
    ensures ParseLine(line).Success? ==>
      var f := Split(line, Tab);
      var c := ParseLine(line).value;
      |f| == 7 && c.domain == f[0] && c.path == f[2] && c.name == f[5] && c.value == f[6] &&
      (c.secure <==> Lower(f[3]) == "true") &&
      (c.expiry.None? <==> f[4] == "") &&
      (c.expiry.Some? ==> ParseInt(f[4]) == Some(c.expiry.value))
    ensures |Split(line, Tab)| == 7 ==>
      (ParseLine(line).Success? <==>
        Split(line, Tab)[4] == "" || ParseInt(Split(line, Tab)[4]).Some?)
  {
  }

  // ---------------------------------------------------------------------------
  // Writing cookies in the same format, to show the parser inverts it.

  function BoolText(b: bool): string
  {
    if b then "TRUE" else "FALSE"
  }

  function ExpiryText(expiry: Option<int>): string
  {
    match expiry
    case None => ""
    case Some(n) => IntToString(n)
  }

  /** The Netscape line for a cookie; the second field says whether the domain
      covers its subdomains. */
  function CookieFields(c: Cookie): seq<string>
  {
    var flag := BoolText(c.domain != [] && c.domain[0] == '.');
    [c.domain, flag, c.path, BoolText(c.secure), ExpiryText(c.expiry), c.name, c.value]
  }

  function CookieLine(c: Cookie): string
  {
    Join(CookieFields(c), Tab)
  }

  /** The lines written for the given cookies, one per cookie. */
  function CookieLines(cookies: seq<Cookie>): seq<string>
  {
    seq(|cookies|, i requires 0 <= i < |cookies| => CookieLine(cookies[i]))
  }

  /** A cookies.txt file holding the given cookies, one per line. */
  function CookieText(cookies: seq<Cookie>): string
  {
    Join(CookieLines(cookies), Newline)
  }

  /** A cookie the format can carry: no tab or newline inside a text field,
      and a domain that does not start the line with `#`. */
  predicate Writable(c: Cookie)
  {
    Tab !in c.domain && Tab !in c.path && Tab !in c.name && Tab !in c.value &&
    Newline !in c.domain && Newline !in c.path && Newline !in c.name && Newline !in c.value &&
    (c.domain == [] || c.domain[0] != '#')
  }

  lemma NumberTextHasNo(n: int, c: char)
    requires !IsDigit(c) && c != '-'
    ensures c !in IntToString(n)
  {
    var d := NatToString(if n < 0 then -n else n);
    assert c !in d;
  }

  lemma {:induction false} JoinAvoids(parts: seq<string>, sep: char, c: char)
    requires c != sep && forall k :: 0 <= k < |parts| ==> c !in parts[k]
    ensures c !in Join(parts, sep)
  {
    if |parts| > 1 {
      JoinAvoids(parts[1..], sep, c);
    }
  }

  lemma FieldsAvoid(c: Cookie, ch: char)
    requires ch == Tab || ch == Newline
    requires Writable(c)
    ensures forall k :: 0 <= k < |CookieFields(c)| ==> ch !in CookieFields(c)[k]
  {
    NumberTextHasNo(if c.expiry.Some? then c.expiry.value else 0, ch);
  }

  lemma SecureRoundTrip(b: bool)
    ensures IsTrueText(BoolText(b)) == b
  {
    assert Lower("TRUE") == "true";
  }

  lemma ExpiryRoundTrip(expiry: Option<int>)
    ensures ParseExpiry(ExpiryText(expiry)) == Success(expiry)
  {
    if expiry.Some? {
      ParseIntToString(expiry.value);
    }
  }

  /** The line written for a cookie is neither a comment nor blank. */
  lemma CookieLineKept(c: Cookie)
    requires Writable(c)
    ensures !IsSkipped(CookieLine(c))
  {
    var f := CookieFields(c);
    var line := CookieLine(c);
    assert Join(f, Tab) == f[0] + [Tab] + Join(f[1..], Tab);
    assert f[1..][1..] == f[2..];
    assert Join(f[1..], Tab) == f[1] + [Tab] + Join(f[2..], Tab);
    assert line == f[0] + [Tab] + (f[1] + [Tab] + Join(f[2..], Tab));
    assert line[|f[0]| + 1] == f[1][0];
    assert !IsSpace(line[|f[0]| + 1]);
    StripEmptyIffBlank(line);
    if f[0] == [] {
      assert line[0] == Tab;
    } else {
      assert line[0] == f[0][0];
    }
  }

  /** The line written for a cookie is kept and parses back to that cookie. */
  lemma CookieLineRoundTrip(c: Cookie)
    requires Writable(c)
    ensures !IsSkipped(CookieLine(c))
    ensures ParseLine(CookieLine(c)) == Success(c)
  {
    var f := CookieFields(c);
    FieldsAvoid(c, Tab);
    SplitJoin(f, Tab);
    assert Split(CookieLine(c), Tab) == f;
    CookieLineKept(c);
    SecureRoundTrip(c.secure);
    ExpiryRoundTrip(c.expiry);
  }

  lemma LineAvoidsNewline(c: Cookie)
    requires Writable(c)
    ensures Newline !in CookieLine(c)
  {
    FieldsAvoid(c, Newline);
    JoinAvoids(CookieFields(c), Tab, Newline);
  }

  /** A kept line that parses appends its cookie to those read before it. */
  lemma KeptLineStep(lines: seq<string>, n: nat, c: Cookie)
    requires n < |lines| && ParseCookieLines(lines[..n]).Success?
    requires !IsSkipped(lines[n]) && ParseLine(lines[n]) == Success(c)
    ensures ParseCookieLines(lines[..n + 1]) == Success(ParseCookieLines(lines[..n]).value + [c])
  {
    assert lines[..n + 1][..n] == lines[..n];
  }

  lemma PrefixSnoc<T>(s: seq<T>, n: nat)
    requires 0 < n <= |s|
    ensures s[..n] == s[..n - 1] + [s[n - 1]]
  {
  }

  lemma WholePrefix<T>(s: seq<T>)
    ensures s[..|s|] == s
  {
  }

  lemma CookieLinesPrefix(cookies: seq<Cookie>, n: nat)
    requires n <= |cookies|
    ensures CookieLines(cookies)[..n] == CookieLines(cookies[..n])
  {
  }

  /** Reading the lines written for some cookies gives back those cookies. */
  lemma {:induction false} CookieLinesRoundTrip(cookies: seq<Cookie>)
    requires forall i :: 0 <= i < |cookies| ==> Writable(cookies[i])
    ensures ParseCookieLines(CookieLines(cookies)) == Success(cookies)
  {
    if cookies != [] {
      var lines := CookieLines(cookies);
      var n := |cookies| - 1;
      CookieLinesRoundTrip(cookies[..n]);
      CookieLinesPrefix(cookies, n);
      CookieLineRoundTrip(cookies[n]);
      KeptLineStep(lines, n, cookies[n]);
      WholePrefix(lines);
      PrefixSnoc(cookies, n + 1);
      WholePrefix(cookies);
    }
  }

  /** A cookies.txt file written for some cookies reads back as those cookies. */
  lemma CookieTextRoundTrip(cookies: seq<Cookie>)
    requires forall i :: 0 <= i < |cookies| ==> Writable(cookies[i])
    ensures ParseCookieLines(Split(CookieText(cookies), Newline)) == Success(cookies)
  {
    var lines := CookieLines(cookies);
    CookieLinesRoundTrip(cookies);
    if cookies == [] {
      assert Split("", Newline) == [""];
      StripEmptyIffBlank("");
      assert ParseCookieLines([""]) == Success([]) by {
        assert [""][..0] == [];
      }
    } else {
      forall k | 0 <= k < |lines| ensures Newline !in lines[k] {
        LineAvoidsNewline(cookies[k]);
      }
      SplitJoin(lines, Newline);
    }
  }
}
