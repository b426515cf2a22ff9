# Bilibili comment scraper helpers, modelled in Dafny

`Steganographier.py` is a scraper for Bilibili video comments, despite its
name. The class `BiliCommentsScraper` looks up a video by its BV id and pages
through the comment API (20 comments a page, at most 100 pages unless a cap is
given). It then removes duplicate comments, reshapes each comment into a small
record with its replies, and sorts the result by likes. A module-level function
reads the cookies the requests send from a Netscape `cookies.txt` file. The
repository as a whole describes a tool that hides archives inside video files.
None of that code is in this file, so none of it is modelled here.

This project models the deterministic core of the scraper. Network and file I/O
are parameters:

| module (file) | what it models |
|---|---|
| `Wrappers` (wrappers.dfy) | `Option` for Python's `None`, `Result` for raised exceptions |
| `PyStr` (pystr.dfy) | the string built-ins the scraper uses: `split`, `join`, `strip`, `lower`, `str(int)`, `int(str)` |
| `Titles` (titles.dfy) | `sanitize_title`, both as written and corrected (see Findings) |
| `Dedup` (dedup.dfy) | `remove_duplicates` |
| `Pages` (pages.dfy) | the page-count arithmetic of `get_total_pages` |
| `Cookies` (cookies.dfy) | the `cookies.txt` branch of `read_cookie_from_file_as_dict_list`, and a writer of that format that the parser inverts |
| `Comments` (comments.dfy) | `convert_to_json_dict_list`: projection, replies, stable sort by likes, most-liked first |
| `Urls` (urls.dfy) | `get_url_info`: BV-id extraction by `/(BV\w+)/`, the comment API URL and its page slot |
| `Scraper` (scraper.dfy) | the scraper object's state: constructor, `run`, and the data steps of `save_to` |

Python semantics the model follows:
- Python's floor division by the positive constant 20 agrees with Dafny's
  Euclidean `/`, so `(count - 1) // 20 + 1` is exact for every integer.
- `max_comment_pages` is an `Option<int>`. It caps the count when it is truthy,
  meaning neither `None` nor `0`.
- `sorted(..., reverse=True)` is stable: comments with equal likes keep their
  input order.
- A raised exception is a `Failure`/`None` result. The loop over cookie lines
  stops at the first line that raises, and no cookies are returned.

## Model

| member | source | states |
|---|---|---|
| `PyStr.Split` | Steganographier.py:30-32 | `str.split(sep)` always yields at least one piece, and no piece contains the separator |
| `PyStr.JoinSplit` | Steganographier.py:30-32 | joining the pieces of a split with the separator gives back the original text |
| `PyStr.SplitJoin` | Steganographier.py:32 | splitting a join of separator-free pieces gives back exactly those pieces |
| `PyStr.SplitCount` | Steganographier.py:32 | a split yields one more piece than the text has separators, so seven fields means six tabs |
| `PyStr.TrimStart` | Steganographier.py:31 | `lstrip` removes only leading whitespace and leaves a suffix that does not start with whitespace |
| `PyStr.TrimEnd` | Steganographier.py:31 | `rstrip` removes only trailing whitespace and leaves a prefix that does not end with whitespace |
| `PyStr.StripEmptyIffBlank` | Steganographier.py:31 | `line.strip()` is empty exactly when every character of the line is whitespace |
| `PyStr.ParseIntToString` | Steganographier.py:34 | `int(str(i)) == i` for every integer `i` |
| `Titles.ReplaceWithUnderscore` | Steganographier.py:158-160 | substituting with a one-class pattern keeps the length, turns every character of the class into `_` and leaves every other character at its index |
| `Titles.NoInvalidCharLeft` | Steganographier.py:159-160 | if `_` is outside the class, no character of the class survives the substitution |
| `Titles.CleanTitleUnchanged` | Steganographier.py:160 | a title with no character of the class is returned unchanged |
| `Titles.ReplaceIdempotent` | Steganographier.py:160 | substituting twice gives the same result as substituting once |
| `Titles.SanitizeTitleSafe` | Steganographier.py:158-160 | the sanitised title has the input's length, contains none of `\ / : * ? " < > \|`, and keeps every other character in place |
| `Titles.SanitizeTitleIdempotent` | Steganographier.py:158-160 | sanitising an already sanitised title changes nothing |
| `Titles.SanitizeTitleAsWrittenProperties` | Steganographier.py:158-160 | as written, the output keeps the length, contains none of the eight pattern characters, and sanitising it again changes nothing |
| `Titles.BackslashSurvivesAsWritten` | Steganographier.py:159 | as written, `a\b` comes back unchanged; the corrected version returns `a_b` |
| `Dedup.RemoveDuplicates` | Steganographier.py:200-201 | the result contains exactly the values of the input, each once, and is no longer than the input |
| `Dedup.KeptPositionsAreLastOccurrences` | Steganographier.py:201 | position `n` passes the filter exactly when it is the last occurrence of its value |
| `Dedup.KeepsLastOccurrencesInOrder` | Steganographier.py:201 | the kept values appear in the order of their last occurrences in the input |
| `Dedup.DeterminedByLastOccurrences` | Steganographier.py:200-201 | any list with the input's values that is strictly ordered by last occurrence equals the result |
| `Dedup.NoDuplicatesUnchanged` | Steganographier.py:201 | a list without duplicates is returned unchanged |
| `Dedup.RemoveDuplicatesIdempotent` | Steganographier.py:201 | applying the de-duplication twice gives the same result as applying it once |
| `Pages.UncappedPages` | Steganographier.py:131 | `(count - 1) // 20 + 1` is the floor-division quotient plus one, for negative counts too |
| `Pages.UncappedIsCeiling` | Steganographier.py:131 | for a count of zero or more, the page count is `ceil(count / 20)`, and a count of 0 gives 0 pages |
| `Pages.TotalPagesCapped` | Steganographier.py:132-140 | a truthy `max_comment_pages` gives `min(pages, cap)`; otherwise the result is `min(pages, 100)` and never exceeds 100 |
| `Pages.TotalPagesWithinCap` | Steganographier.py:131-140 | a cap only ever lowers the page count, a count within a truthy cap is kept, and the result is negative only under a negative cap |
| `Cookies.ReadNetscapeCookies` | Steganographier.py:26-36 | the imperative loop over `text.split('\n')` returns exactly `ParseCookieLines` of those lines |
| `Cookies.FailureIsFinal` | Steganographier.py:30-36 | once a line raises, the whole read fails with that line's error |
| `Cookies.CookiesFollowKeptLines` | Steganographier.py:30-36 | comment and blank lines yield no cookie; every other line yields exactly one cookie, in line order |
| `Cookies.SucceedsIffEveryKeptLineParses` | Steganographier.py:30-36 | the read succeeds exactly when every non-skipped line parses |
| `Cookies.FailsAtFirstBadLine` | Steganographier.py:30-36 | a failed read reports the error of the first non-skipped line that does not parse |
| `Cookies.WrongFieldCountFails` | Steganographier.py:31-32 | a non-skipped line without exactly six tabs (seven fields) makes the read fail |
| `Cookies.ParseLineFields` | Steganographier.py:32-35 | the field count must be 7; domain, path, name and value come from fields 1, 3, 6 and 7; `secure` holds iff lower-cased field 4 is `true`; `expiry` is `None` iff field 5 is empty and otherwise is `int(field 5)` |
| `Cookies.CookieLineRoundTrip` | Steganographier.py:31-35 | the Netscape line written for a cookie is not skipped and parses back to that cookie |
| `Cookies.CookieLinesRoundTrip` | Steganographier.py:30-36 | the lines written for a list of cookies parse back to that list |
| `Cookies.CookieTextRoundTrip` | Steganographier.py:29-36 | a cookies.txt text written for a list of cookies reads back as that list |
| `Comments.SortByLikeDescending` | Steganographier.py:197 | the sort output is a permutation of its input, ordered by `like`, highest first |
| `Comments.SortIsStable` | Steganographier.py:197 | for each like count, the entries with that count keep their input order |
| `Comments.StableSortUnique` | Steganographier.py:197 | two lists ordered by `like` (highest first) that agree on every like count's entries are equal |
| `Comments.StableSortIsSortByLike` | Steganographier.py:197 | any stable highest-first ordering of the input is exactly `SortByLikeDescending`'s output |
| `Comments.ConvertToJsonDictList` | Steganographier.py:171-198 | the output is the stable sort, highest `like` first, of the per-item projections in input order |
| `Comments.FormatItemReplies` | Steganographier.py:179-192 | the item's record is its projection; `replies` is `[]` exactly when the item's replies are null or empty, and otherwise is the projection of each reply, in order |
| `Urls.MatchAtIff` | Steganographier.py:163 | the matcher succeeds at a position, capturing `id`, exactly when `/` + `id` + `/` starts there and `id` is `BV` followed by one or more word characters |
| `Urls.FindBvIsLeftmost` | Steganographier.py:163-164 | `findall(url)[0]` returns the id at the leftmost position where the pattern fits, and fails exactly when the pattern fits nowhere |
| `Urls.FindBvAfterPrefix` | Steganographier.py:163-164 | after a prefix ending in `/` that contains no `B`, an id written as `id/` is the one found |
| `Urls.VideoPageRoundTrip` | Steganographier.py:163-164 | the id is recovered from `https://www.bilibili.com/video/<id>/...` |
| `Urls.ApiUrlHasOneSlot` | Steganographier.py:168 | the API URL's only braces are its `{}` page slot, so `.format(page)` only puts the page number there |
| `Urls.GetUrlInfoSpec` | Steganographier.py:162-169 | `get_url_info` fails exactly when the URL has no BV id. Otherwise it returns the leftmost id, the API URL built from it, and the fetched title sanitised: same length, every forbidden character replaced, every other character kept at its index, absent stays absent |
| `Scraper.BiliCommentsScraper.constructor` | Steganographier.py:78-86 | the constructor stores the URL and the page cap, and no comments have been fetched yet |
| `Scraper.BiliCommentsScraper.TotalPages` | Steganographier.py:126-146 | with the scraper's own `max_comment_pages`: 0 pages when the first page gave no count; otherwise never more than the uncapped count, never more than a truthy cap, and never more than 100 without one |
| `Scraper.BiliCommentsScraper.Run` | Steganographier.py:88-90 | `run` stores the fetched comments exactly when the URL has a BV id and neither `get_video_info` nor `get_comment_data` raised, and changes nothing else |
| `Scraper.BiliCommentsScraper.PrepareForSave` | Steganographier.py:92-95 | `save_to`'s data steps fail iff nothing was stored; otherwise they return the de-duplicated comments reshaped and stably sorted, highest `like` first |
| `Scraper.DistinctCommentsBothKept` | Steganographier.py:200-201 | two comment objects that differ in any field, including fields `extract_data` does not read, both survive de-duplication, in order |

## Findings

| source | as written | input that shows it | evidently intended | confidence | as-written member | corrected member |
|---|---|---|---|---|---|---|
| Steganographier.py:159 | `r'[\/:*?"<>\|]'`: inside the character class `\/` is an escaped slash, so a backslash is never replaced | the title `a\b` is returned unchanged; a caller that uses the title as a file name, as the docstring at line 72 intends, would write into a sub-directory `a` on Windows (within this file `run` discards the title) | the method makes titles usable as file names (docstring at line 72), so the backslash belongs in the set with the other characters Windows forbids | medium; not executed | `Titles.SanitizeTitleAsWritten`, `Titles.BackslashSurvivesAsWritten` | `Titles.SanitizeTitle`, `Titles.SanitizeTitleSafe` |

`Urls.GetUrlInfo` uses the corrected `Titles.SanitizeTitle`.

## Left out

- `fetch_json`, `get_video_info` and `get_comment_data` (lines 109-124, 148-156, 203-220) are HTTP requests with retries and sleeps, and are not modelled. Their results enter as parameters: the comment count in `Pages.TotalPages`, the fetched title in `Urls.GetUrlInfo`, and the outcome of both network calls of `run` in `Scraper.BiliCommentsScraper.Run`: `None` when `get_video_info` raises (`TypeError` at line 153 on a view response whose `data` is null, since only `KeyError` is caught) or `get_comment_data` raises (`TypeError` on a page that came back empty, or `comments` unbound when the first page holds no data).
- `save_to` (lines 92-107): writing the JSON text to a file and the call into `utlis.json2html` are I/O and an external module. `utlis/json2html.py` is not part of this model. Only the de-duplication and reshaping steps are modelled, by `PrepareForSave`.
- The `.json` cookie branch (lines 37-48), and the suffix test that returns `[]` for any other file name, are not modelled. The `.txt` branch takes the file's contents as `text`, after Python's newline translation has been applied.
- `process_bar` (lines 17-24) is floating-point console output.
- `timestamp_to_beijing` (lines 172-175): the `posttime` field keeps the Unix timestamp instead of the formatted Beijing-time string.
- The `__main__` script (lines 222-237).
- The HTTP session, headers, cookies and `show_process` fields of the scraper. They are only used by network calls.
- `Pages.TotalPages`: a response whose `"data"` is JSON null raises `TypeError` in the source (it is not caught). The model folds it into the `None` count, which returns 0.
- `PyStr.ParseInt`: Python's `int()` also accepts non-ASCII decimal digits. The model accepts only ASCII digits, so an expiry written in other scripts is an error here.
- `PyStr.Lower`: only ASCII capitals are lower-cased. No other character lower-cases to `t`, `r`, `u` or `e`, so the `== 'true'` test still agrees with Python.
- `Urls.IsWordChar`: Python's `\w` also matches non-ASCII letters and digits. The model takes only `[A-Za-z0-9_]`, so an id containing other letters is not found here, and a later id may be returned instead.
- `Comments.RawComment`: the fields the scraper reads are typed. Every other key is kept in `others` with its value as JSON text, so de-duplication compares whole objects, but two JSON texts for one value count as different. A comment missing one of the read fields (`KeyError` in the source) is not modelled.
- `Urls.GetUrlInfoSpec`: the title goes through the corrected sanitiser (see Findings). As written, line 167 leaves a backslash in the title, which is what `Titles.SanitizeTitleAsWritten` models.
