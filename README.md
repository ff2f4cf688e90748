# Shanghai Fantasy source adapter — Dafny model

This project models the normalisation core of the Shanghai Fantasy plugin
(`plugins/english/shanghaifantasy.ts`), a source adapter of a novel reader. The
adapter lists popular novels, searches novels, fetches a novel's details and
its chapter list, and fetches chapter text. For the listings, the search and
the novel details, everything from the decoded response (for the novel page,
from the strings its selectors extract) to the value handed back to the host
application is modelled. Fetching chapter text (`parseChapter`) is not:

- **JSON listings.** A response is a bare array or an object with a `data`
  member (`Api.Payload`). A request or decode failure is caught, and the
  adapter answers with an empty list (`Payload.Failed`). The popular listing
  and the search apply ordered fallback chains over optional fields. JavaScript
  `||` treats a missing field and `""` alike (`Api.Truthy`, `Api.FirstTruthy`).
  The listings keep or drop each record and strip the site origin from its
  link. `PopularNovels` and `SearchNovels` are the `forEach`/`push` loops, and
  each is proved against a specification function (`Api.FilterMap` with
  `PopularEntry` or `SearchEntry`).
- **Category id.** `GetNovelId` scans the raw novel page. It first looks for
  the leftmost `data-cat="<digits>"` (either quote, on either side), then for
  the leftmost `?p=<digits>` or `&p=<digits>` shortlink, and otherwise finds
  nothing. The two regular expressions are stated as declarative match
  predicates (`DataCatMatch`, `ShortlinkMatch`). The scanner is proved to
  return the leftmost match, to prefer `data-cat`, and to return nothing
  exactly when neither pattern occurs.
- **Chapter list.** Each record at position `i` that has a `permalink`, `url`
  or `link` becomes chapter number `i + 1`. Records without a link are dropped
  and the others are not renumbered, so the numbers may have gaps.
- **Novel details.** `parseNovel` fills a fresh novel object field by field.
  This is the class `SourceNovel`, updated in place by the step methods
  `SetNameAndCover`, `SetAuthor`, `SetStatus`, `SetGenres`, `SetSummary` and
  `SetChapters` (which calls `FillChapters`, the loop that empties and refills
  the chapter list). Each step changes only its own field of the novel's
  snapshot `NovelDetail`. `ParseNovel` runs these steps in the source's order,
  and its result is proved equal to the specification function `ParsedNovel`. The HTML
  selectors are replaced by their results: the strings they extract arrive as
  a `NovelPage` value.
- **Helpers.** `stripHtml`, `resolveUrl`, and origin stripping with
  `replace(site, '')`, which removes only the first occurrence. `JsString`
  holds the JavaScript string built-ins these rely on.

Files: `Wrappers.dfy` (Option), `JsString.dfy` (trim, toLowerCase, includes/indexOf,
replace, join, number rendering), `Api.dfy` (response shapes, truthiness, the
`forEach` idioms), `ShanghaiFantasy.dfy` (the adapter), `Examples.dfy` (the
adapter's rules on concrete inputs).

Chapter numbers are each record's position plus one (lines 187-200). Records
without a link are dropped and the rest are not renumbered, so the numbers
can have gaps; `ChapterGapExample` shows one.

## Model

| member | source | states |
|---|---|---|
| `JsString.TrimStartSpec` | plugins/english/shanghaifantasy.ts:126 | `trimStart` removes a prefix made only of whitespace and stops at the first non-whitespace character |
| `JsString.TrimEndSpec` | plugins/english/shanghaifantasy.ts:126 | `trimEnd` removes a suffix made only of whitespace and stops at the last non-whitespace character |
| `JsString.TrimSpec` | plugins/english/shanghaifantasy.ts:126 | `trim` returns the slice of its input between the leading and the trailing whitespace; the result neither starts nor ends with whitespace |
| `JsString.IndexOfSpec` | plugins/english/shanghaifantasy.ts:91 | the index found is an occurrence of the pattern and no earlier index is; no index means no occurrence anywhere |
| `JsString.ContainsSpec` | plugins/english/shanghaifantasy.ts:133-136 | `includes` is true exactly when the word occurs at some index |
| `JsString.ContainsIgnoresPadding` | plugins/english/shanghaifantasy.ts:132 | a whitespace-free word occurs in a trimmed string exactly when it occurs in the untrimmed one |
| `JsString.ContainsLowerTrimmed` | plugins/english/shanghaifantasy.ts:132 | for a whitespace-free word, `text.trim().toLowerCase().includes(w)` agrees with `text.toLowerCase().includes(w)` |
| `JsString.ReplaceFirst` | plugins/english/shanghaifantasy.ts:127 | `replace` with a string pattern leaves a string that does not contain the pattern unchanged; otherwise the length changes by `|rep| - |pat|`, once |
| `JsString.ReplaceFirstAt` | plugins/english/shanghaifantasy.ts:127 | when the first occurrence of the pattern is at `i` (an occurrence there and none before), `replace` splices the replacement in at `i` and keeps everything else |
| `JsString.ReplaceFirstKeepsLater` | plugins/english/shanghaifantasy.ts:91 | only the first occurrence is removed: a later occurrence survives, shifted left by the pattern's length |
| `JsString.JoinPart` | plugins/english/shanghaifantasy.ts:142 | in `join(sep)`, every part appears whole and in order at its offset |
| `JsString.JoinSeparator` | plugins/english/shanghaifantasy.ts:142 | in `join(sep)`, consecutive parts are separated by exactly one separator |
| `JsString.JoinLength` | plugins/english/shanghaifantasy.ts:150 | nothing follows the last part of a join |
| `JsString.NatToString` | plugins/english/shanghaifantasy.ts:189 | the rendering of `index + 1` is a non-empty run of decimal digits with no leading zero |
| `JsString.DecimalRoundTrip` | plugins/english/shanghaifantasy.ts:189 | reading the rendered number back gives the number |
| `Api.FirstTruthySpec` | plugins/english/shanghaifantasy.ts:188-191 | `a \|\| b \|\| …` yields nothing exactly when no operand is present and non-empty, and otherwise the first such operand |
| `Api.FirstTruthyOfTwo` | plugins/english/shanghaifantasy.ts:191 | a two-operand `\|\|` chain is the nested if/else over the operands' truthiness |
| `Api.FirstTruthyOfThree` | plugins/english/shanghaifantasy.ts:258-261 | a three-operand `\|\|` chain is the nested if/else over the operands' truthiness |
| `Api.FilterMapSpec` | plugins/english/shanghaifantasy.ts:86-94 | every record with an entry contributes it to the list, and every listed item is the entry of some record |
| `Api.FilterMap` | plugins/english/shanghaifantasy.ts:86-94 | the `forEach`/`push` idiom keeps each record's entry in input order and never has more items than records; membership is `FilterMapSpec`, order `FilterMapAppend` |
| `Api.FilterMapAppend` | plugins/english/shanghaifantasy.ts:257-270 | the list for a concatenation is the concatenation of the lists, so input order is kept |
| `Api.LastMatchSpec` | plugins/english/shanghaifantasy.ts:125-130 | the overwrite loop leaves a value exactly when some item passes the test |
| `Api.LastMatch` | plugins/english/shanghaifantasy.ts:125-130 | the `each`-and-overwrite idiom; its meaning is stated by `LastMatchSpec` (a value exactly when an item passes) and `LastMatchIsLast` (the last passing item's value) |
| `Api.LastMatchIsLast` | plugins/english/shanghaifantasy.ts:129 | the value left is that of the last item that passes the test |
| `Api.DualShape` | plugins/english/shanghaifantasy.ts:84 | a bare array and `{data: array}` give the same records; an object without `data`, or a failed request, gives none |
| `Api.Items` | plugins/english/shanghaifantasy.ts:84 | the records of a response: a bare array, the `data` member of an object (none when it is missing), none on failure; stated by `DualShape` |
| `ShanghaiFantasy.StripOrigin` | plugins/english/shanghaifantasy.ts:196 | a link that does not contain the origin is unchanged; otherwise it is shortened by exactly the origin's length |
| `ShanghaiFantasy.ResolveUrl` | plugins/english/shanghaifantasy.ts:280 | `resolveUrl` prefixes the origin; `ResolveAfterStrip` proves it undoes origin stripping of an on-site link |
| `ShanghaiFantasy.ResolveAfterStrip` | plugins/english/shanghaifantasy.ts:280 | for a link that starts with the origin, the path is the rest of the link and `resolveUrl(path)` gives the link back |
| `ShanghaiFantasy.StripOriginKeepsLaterOrigin` | plugins/english/shanghaifantasy.ts:267 | only the first occurrence of the origin is removed; a later one survives, shifted left |
| `ShanghaiFantasy.DigitRun` | plugins/english/shanghaifantasy.ts:47 | `\d+` is greedy: the run found is all digits and is followed by a non-digit or the end |
| `ShanghaiFantasy.DigitRunUnique` | plugins/english/shanghaifantasy.ts:50 | a digit run ending before a non-digit is the greedy run |
| `ShanghaiFantasy.DataCatIsDigitRun` | plugins/english/shanghaifantasy.ts:47 | a data-cat capture is the whole digit run after the opening quote |
| `ShanghaiFantasy.ShortlinkIsDigitRun` | plugins/english/shanghaifantasy.ts:50 | a shortlink capture is the whole digit run after `p=` |
| `ShanghaiFantasy.DataCatNeedsOpening` | plugins/english/shanghaifantasy.ts:47 | without `data-cat=` and a quote at an index, the pattern does not match there |
| `ShanghaiFantasy.DataCatNeedsClosing` | plugins/english/shanghaifantasy.ts:47 | after the opening, a match needs a non-empty digit run closed by a quote, and captures that run |
| `ShanghaiFantasy.ShortlinkNeedsDigits` | plugins/english/shanghaifantasy.ts:50 | after `?p=` or `&p=`, a match needs a non-empty digit run, and captures that run |
| `ShanghaiFantasy.DataCatAt` | plugins/english/shanghaifantasy.ts:47 | the capture returned at an index is a data-cat match there, and no capture means no match at that index |
| `ShanghaiFantasy.ShortlinkAt` | plugins/english/shanghaifantasy.ts:50 | the capture returned at an index is a shortlink match there, and no capture means no match at that index |
| `ShanghaiFantasy.FindDataCat` | plugins/english/shanghaifantasy.ts:47-48 | the scan returns the leftmost data-cat match, or nothing when none exists |
| `ShanghaiFantasy.FindShortlink` | plugins/english/shanghaifantasy.ts:50-51 | the scan returns the leftmost shortlink match, or nothing when none exists |
| `ShanghaiFantasy.GetNovelId` | plugins/english/shanghaifantasy.ts:46-54 | a returned id is a non-empty string of decimal digits captured by one of the two patterns |
| `ShanghaiFantasy.DataCatUnique` | plugins/english/shanghaifantasy.ts:47 | at a given index the data-cat pattern has at most one capture |
| `ShanghaiFantasy.ShortlinkUnique` | plugins/english/shanghaifantasy.ts:50 | at a given index the shortlink pattern has at most one capture |
| `ShanghaiFantasy.GetNovelIdPrefersDataCat` | plugins/english/shanghaifantasy.ts:47-48 | when a data-cat attribute exists, the id is the digits of the leftmost one, whatever shortlinks exist |
| `ShanghaiFantasy.GetNovelIdFallsBackToShortlink` | plugins/english/shanghaifantasy.ts:50-51 | without a data-cat attribute, the id is the digits of the leftmost shortlink |
| `ShanghaiFantasy.GetNovelIdNull` | plugins/english/shanghaifantasy.ts:53 | there is no id exactly when neither pattern occurs anywhere in the page |
| `ShanghaiFantasy.SkipTag` | plugins/english/shanghaifantasy.ts:57 | `[^>]*>?` consumes a prefix; what remains is a suffix of the input (see `SkipTagPassesTag` and `SkipTagNoClose` for where it stops) |
| `ShanghaiFantasy.RemoveTags` | plugins/english/shanghaifantasy.ts:57 | after the global tag replace, no `<` is left, characters are only removed (multiset inclusion), and text without `<` is unchanged |
| `ShanghaiFantasy.RemoveTagsKeepsText` | plugins/english/shanghaifantasy.ts:57 | text before the first `<` passes through verbatim |
| `ShanghaiFantasy.RemoveTagsAtTag` | plugins/english/shanghaifantasy.ts:57 | a leading `<…>` is removed through its closing `>` |
| `ShanghaiFantasy.SkipTagPassesTag` | plugins/english/shanghaifantasy.ts:57 | `[^>]*>` stops at the first `>` |
| `ShanghaiFantasy.SkipTagNoClose` | plugins/english/shanghaifantasy.ts:57 | the closing `>` is optional: after an unclosed `<` the pattern consumes the whole rest of the input |
| `ShanghaiFantasy.RemoveTagsDropsTag` | plugins/english/shanghaifantasy.ts:57 | `text<tag>rest` becomes `text` followed by the stripped `rest` |
| `ShanghaiFantasy.RemoveTagsUnclosed` | plugins/english/shanghaifantasy.ts:57 | `text<tail` with no `>` in the tail strips to `text`: everything from the unclosed `<` on is lost |
| `ShanghaiFantasy.StripHtml` | plugins/english/shanghaifantasy.ts:56-58 | the output has no `<`; on tag-free input it is just the trimmed input |
| `ShanghaiFantasy.PopularEntry` | plugins/english/shanghaifantasy.ts:87-92 | a popular record is kept exactly when its `title` is non-empty; the name is that title, the cover is never empty, and a missing permalink gives path `""` |
| `ShanghaiFantasy.SearchEntry` | plugins/english/shanghaifantasy.ts:258-268 | a search record is kept exactly when one of title/post_title/name and one of permalink/link/url are non-empty; name and cover are then non-empty |
| `ShanghaiFantasy.ListingFields` | plugins/english/shanghaifantasy.ts:258-267 | the fallback orders of both listings: cover novelImage, thumbnail, (search only: image), default; search name title, post_title, name; path from permalink, (search only: link, url) with the origin stripped |
| `ShanghaiFantasy.ListedPathResolves` | plugins/english/shanghaifantasy.ts:91 | a listed novel whose permalink is on the site has a path that resolves back to that permalink |
| `ShanghaiFantasy.PopularNovels` | plugins/english/shanghaifantasy.ts:83-94 | the loop's result is the popular normalisation of the records of either payload shape (empty on failure) |
| `ShanghaiFantasy.SearchNovels` | plugins/english/shanghaifantasy.ts:254-270 | the loop's result is the search normalisation of the records of either payload shape (empty on failure) |
| `ShanghaiFantasy.ChapterEntry` | plugins/english/shanghaifantasy.ts:187-200 | a chapter record yields a chapter exactly when it has a link; its number is its position plus one and its name is never empty |
| `ShanghaiFantasy.ChapterList` | plugins/english/shanghaifantasy.ts:185-201 | there are never more chapters than records |
| `ShanghaiFantasy.ChapterListIncreasing` | plugins/english/shanghaifantasy.ts:197 | chapter numbers strictly increase along the list |
| `ShanghaiFantasy.ChapterListEntries` | plugins/english/shanghaifantasy.ts:193-199 | every chapter number lies in 1..\|records\|, and each chapter is the entry of the record at position number − 1 |
| `ShanghaiFantasy.ChapterListKeepsExactlyLinked` | plugins/english/shanghaifantasy.ts:193 | a record at position `i` appears as chapter `i + 1` exactly when it has a link |
| `ShanghaiFantasy.ChapterEntryFields` | plugins/english/shanghaifantasy.ts:188-191 | name post_title, title, else `Chapter <i+1>`; link permalink, url, link; date post_date, date, else `""` |
| `ShanghaiFantasy.NameOf` | plugins/english/shanghaifantasy.ts:117-120 | the name is the trimmed title text when non-empty, else the og:title content when non-empty, else "Untitled"; it is never empty |
| `ShanghaiFantasy.CoverOf` | plugins/english/shanghaifantasy.ts:122-123 | the cover is never empty |
| `ShanghaiFantasy.IsAuthorLabel` | plugins/english/shanghaifantasy.ts:126-129 | a bold label counts as an author label when its trimmed text contains `Author` (case-sensitive) |
| `ShanghaiFantasy.LabelValue` | plugins/english/shanghaifantasy.ts:127 | the parent's text with the first occurrence of the trimmed label removed, then trimmed (`ReplaceFirstAt`, `TrimSpec`) |
| `ShanghaiFantasy.AuthorOf` | plugins/english/shanghaifantasy.ts:125-130 | the author the label loop leaves; `AuthorIsLastLabel` proves it is the value of the last author label, and `LastMatchSpec` that there is none without such a label |
| `ShanghaiFantasy.AuthorIsLastLabel` | plugins/english/shanghaifantasy.ts:125-130 | the author is the parent text, label removed and trimmed, of the last bold label that mentions "Author" |
| `ShanghaiFantasy.StatusOf` | plugins/english/shanghaifantasy.ts:132-136 | the status classification of the trimmed, lower-cased text; its keyword priority is proved by `StatusByKeyword` |
| `ShanghaiFantasy.StatusByKeyword` | plugins/english/shanghaifantasy.ts:132-136 | the status is Ongoing, Completed or OnHiatus when the lower-cased text contains that keyword, in that priority, else Unknown; trimming never changes the outcome |
| `ShanghaiFantasy.GenresOf` | plugins/english/shanghaifantasy.ts:138-142 | the genre line exists exactly when at least one genre link exists; it is the trimmed texts joined by `, ` (`JoinPart`, `JoinSeparator`) |
| `ShanghaiFantasy.SummaryOf` | plugins/english/shanghaifantasy.ts:144-154 | the Synopsis paragraphs, trimmed and joined by a blank line, when the panel exists; else the non-empty og:description; else `""`, each case stated in its contract (used by `SetSummary`) |
| `ShanghaiFantasy.SummaryKeepsParagraphs` | plugins/english/shanghaifantasy.ts:146-150 | every Synopsis paragraph appears trimmed and whole in the summary at its offset, and consecutive paragraphs are separated by exactly one blank line |
| `ShanghaiFantasy.SourceNovel.constructor` | plugins/english/shanghaifantasy.ts:109-115 | a parse starts from the placeholder novel: the given path, name "Untitled", default cover, Unknown status, no optional fields, no chapters |
| `ShanghaiFantasy.SetNameAndCover` | plugins/english/shanghaifantasy.ts:117-123 | only the name and the cover change; the name follows its fallback chain, and the cover is replaced only by a non-empty image source |
| `ShanghaiFantasy.SetAuthor` | plugins/english/shanghaifantasy.ts:125-130 | only the author changes: it becomes the last author label's value, and stays as it was when there is none |
| `ShanghaiFantasy.SetStatus` | plugins/english/shanghaifantasy.ts:132-136 | only the status changes, and only when a keyword is found |
| `ShanghaiFantasy.SetGenres` | plugins/english/shanghaifantasy.ts:138-142 | only the genres change: set to the ", "-join of the trimmed link texts when there is at least one |
| `ShanghaiFantasy.SetSummary` | plugins/english/shanghaifantasy.ts:144-154 | only the summary changes, and it is always set: Synopsis paragraphs joined by a blank line, else og:description, else `""` |
| `ShanghaiFantasy.FillChapters` | plugins/english/shanghaifantasy.ts:186-201 | only the chapters change: the list is emptied and then rebuilt, one record at a time, into the chapter normalisation of the records |
| `ShanghaiFantasy.SetChapters` | plugins/english/shanghaifantasy.ts:156-202 | only the chapters change, and only when an id is found and the response has records |
| `ShanghaiFantasy.ParsedNovel` | plugins/english/shanghaifantasy.ts:104-211 | the parsed novel keeps the requested path, has a non-empty name and cover, always has a summary, has genres exactly when genre links exist, and has no chapters without an id |
| `ShanghaiFantasy.ParseNovel` | plugins/english/shanghaifantasy.ts:104-211 | the returned novel is fresh and its whole state is `ParsedNovel` of the page and the chapter response |
| `Examples.DataCatExample` | plugins/english/shanghaifantasy.ts:47-48 | `data-cat="482"` yields "482" |
| `Examples.ShortlinkExample` | plugins/english/shanghaifantasy.ts:50-51 | a page with only `?p=773` yields "773" |
| `Examples.NoIdExample` | plugins/english/shanghaifantasy.ts:53 | a page with neither pattern yields no id |
| `Examples.FirstEntryExample` | plugins/english/shanghaifantasy.ts:188-199 | an untitled, dated record at position 0 becomes "Chapter 1" with the origin stripped |
| `Examples.ThirdEntryExample` | plugins/english/shanghaifantasy.ts:191 | an undated record gets an empty release time |
| `Examples.ChapterGapExample` | plugins/english/shanghaifantasy.ts:187-200 | with the middle record unlinked, the chapters are numbered 1 and 3 |
| `Examples.OngoingExample` | plugins/english/shanghaifantasy.ts:133 | "  Ongoing  " is Ongoing |
| `Examples.CompletedExample` | plugins/english/shanghaifantasy.ts:134-135 | "Completed" is Completed |
| `Examples.HiatusTextKeywords` | plugins/english/shanghaifantasy.ts:133-136 | "on hiatus" contains "hiatus" and neither "ongoing" nor "completed" |
| `Examples.HiatusExample` | plugins/english/shanghaifantasy.ts:136 | "On Hiatus" is OnHiatus |
| `Examples.UnknownExample` | plugins/english/shanghaifantasy.ts:132-136 | a text without a keyword leaves the status Unknown |

## Left out

- HTTP requests (`fetchApi`, `fetchText`), request headers, referers and `URLSearchParams` query building (lines 62-81, 159-178, 233-252). These are I/O. Each JSON response enters the model as a decoded `Payload` parameter, and the novel page as the `NovelPage` of what its selectors extract.
- A failure of `fetchText` for the novel page (line 106) is outside any `try`, so `parseNovel` rejects. The model has no such path: `ParseNovel` always receives a page.
- `async`/`await`, `try`/`catch` and `console.error`. A failed request or decode becomes `Payload.Failed`, which yields no records. This gives what the source returns when the request or the decode fails: an empty novel list, or chapters left as they were.
- Records that make a loop body throw part-way are not modelled: a `null` array element (lines 87, 189, 258) or a truthy non-string link (lines 91, 196, 267). The source then returns the items pushed before that record, and in `parseNovel` a partial chapter list, because the list was already reset at line 186. The model's records are always objects with optional string fields, so its loops never stop early.
- Cheerio selector evaluation in `parseNovel` (lines 117-154). The strings the selectors extract arrive in `NovelPage`.
- `parseChapter` (lines 213-226) is not part of this model. It is entirely selector evaluation and node removal inside the HTML library.
- Plugin metadata and the empty filter table (lines 37-44) are left out. `DefaultCover` is a non-empty stand-in for the host's default-cover asset.
- JSON values that are not strings in string fields, and a `data` member that is not an array, are not modelled. Every record field is an optional string.
- Api.FirstTruthySpec: when every operand is falsy, JavaScript `||` returns the last operand (`""` or `undefined`), while the model returns `None`. Every use either tests the result for truthiness, ends with a truthy default, or ends with `''` (lines 91, 153, 191), where `GetOr("")` gives the same `""`, so the two agree.
- JsString.TrimSpec: `Trim` removes ASCII whitespace, the line terminators, NBSP and BOM. It does not remove the other Unicode space separators that JavaScript `trim` removes.
- JavaScript strings are sequences of UTF-16 code units, while a Dafny `string` is a sequence of Unicode scalar values, so a lone surrogate in a JSON field or on the page cannot be represented. Every pattern and keyword here is ASCII, so the results agree on well-formed text.
- JsString.ToLower: maps only the ASCII letters, not full Unicode case mapping.
- JsString.ReplaceFirst: the replacement string is taken literally. This loses nothing here, because every call site replaces with `''`, which has no `$` patterns.
- Regular expressions are modelled only as the three patterns the file uses, not as a general engine.
