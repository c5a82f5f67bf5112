# Facebook photo scraper, modelled in Dafny

This project models the extraction core of the `fbphoto` download command
(`cmd/download/facebookpht.js`). The scraper fetches a post page. If the page names a
canonical story page, it fetches that page instead. It then harvests every embedded
`<script type="application/json">` blob, walks each blob for image locations into one
insertion-ordered `Set`, and picks an author. Finally it filters out thumbnails, unescapes
the locations and returns them. Any failure comes back as `Scrape Failed: <message>`. The
model also covers `parseEngagement`, which turns counts such as `1.2K` into numbers, and
the command handler's input check.

Modules, one file each:

- `wrappers.dfy` (`Wrappers`): `Option` and `Result`.
- `json.dfy` (`JsonTree`): the values `JSON.parse` produces, truthiness, property access
  and the children a `for...in` loop visits.
- `text.dfy` (`Text`): `includes`, a global `replace` with a literal pattern, ASCII case
  mapping, and the substring search (`IndexOf`) that the models of `exec` and `match`
  are built on.
- `engagement.dfy` (`Engagement`): `parseEngagement`, with `parseFloat`, `parseInt` and
  `Math.round` over exact decimals.
- `locator.dfy` (`Locator`): `findImagesRecursive`. A class `ImageSet` holds the shared
  `Set`. A recursive method updates it in place, and is proved against the walk function
  `Walk`. `Walk` is in turn proved equal to inserting the pre-order list of hits.
- `harvest.dfy` (`Harvest`): the `jsonRegex.exec` loop as a method with an explicit
  `lastIndex`. It is proved against a leftmost-match semantics of the expression.
- `story.dfy` (`Story`): the story-address expression and the rewrite of its capture.
- `scraper.dfy` (`Scraper`): the `forEach`, `filter`, `map`, the empty check and the
  `try`/`catch`, both as methods and as the functions that specify them.
- `handler.dfy` (`Handler`): the choice of input text and the host check at lines 125-127.

Network access is a parameter `fetch: string -> Result<string, string>`. It gives the page
text or the client's error message. `JSON.parse` is a parameter
`parse: string -> Option<Json>`, where `None` means the parse threw.

Where the code does something its names and messages do not suggest, the model follows the code:

- `parseEngagement` can return a negative number (`"-5"` gives -5) or NaN (a bare `"K"`
  has no number before it). Both are shown by `Engagement.NegativeExample` and
  `Engagement.BareSuffixIsNaN`.
- The `K` and `M` tests look at the whole upper-cased text. So `"12 likes"` counts 12000,
  and `"2 km"` counts 2000 because `K` wins.
- Any truthy `author.name` is taken, not only strings. A name equal to `"Unknown"` does not
  settle the author, so a later blob may still set one.
- The `stats` record is never filled in: every result carries zero likes, comments and
  shares.
- The check that the link names `facebook.com` or `fb.watch` is in the command handler,
  not in `scrape`. `scrape` itself fetches whatever address it is given.
- A blob that parses to `null` makes `json.author` throw while the author is still
  unresolved. That failure ends the whole scrape.

## Model

| member | source | states |
|---|---|---|
| Text.Contains | cmd/download/facebookpht.js:41 | `includes` holds exactly when the pattern occurs at some index |
| Text.IndexOfIsFirst | cmd/download/facebookpht.js:79 | the search inside the `exec` of the script pattern finds the first occurrence at or after the start; -1 means there is none |
| Text.DeleteAll | cmd/download/facebookpht.js:31 | `replace(/c/g, '')` keeps exactly the other characters and leaves text without `c` unchanged |
| Text.ReplaceAllAbsent | cmd/download/facebookpht.js:110 | a global literal replace leaves text that lacks the pattern's first character unchanged |
| Text.ReplaceAllChars | cmd/download/facebookpht.js:69 | a global literal replace brings in no character outside the text and the replacement |
| Text.ReplaceAllMatchHead | cmd/download/facebookpht.js:110 | an occurrence at the front is replaced, and scanning resumes after it without overlap |
| Text.SkipSpaces | cmd/download/facebookpht.js:65 | `\s*` stops at the first character that is not JavaScript white space |
| Text.ReplaceAll | cmd/download/facebookpht.js:110 | a global `replace` with a literal pattern, scanning left to right and resuming after each replaced occurrence (also the `\/` rewrite at line 69); `ReplaceAllAbsent`, `ReplaceAllChars` and `ReplaceAllMatchHead` state its properties |
| JsonTree.Get | cmd/download/facebookpht.js:40-46 | a property read finds the member with that key, and `undefined` means no member has it |
| JsonTree.Children | cmd/download/facebookpht.js:50-51 | `for...in` visits array elements or property values, each smaller than its parent |
| Engagement.ParseEngagement | cmd/download/facebookpht.js:29-35 | a missing or empty value counts 0; only the `K`/`M` branches can give NaN |
| Engagement.Normalize | cmd/download/facebookpht.js:31 | the text the branches read: upper-cased with every comma removed; `UpperDeleteCommute` and `DeleteIdempotent` show the order of the two steps does not matter and repeating them changes nothing, and `CaseInsensitive`, `CommasIgnored` and `SameNormalForm` that the count depends on this form only |
| Engagement.ParseFloat | cmd/download/facebookpht.js:32-33 | `parseFloat`: leading white space, a sign, the longest decimal literal with point and exponent, and NaN (`None`) when there is none; `ParseFloatDecimal` and `ParseFloatInteger` state what it reads from digit text, and `BareSuffixIsNaN` that a suffix alone is NaN |
| Engagement.ParseInt | cmd/download/facebookpht.js:34 | `parseInt` without a radix: leading white space, a sign, base 16 after `0x`, the longest digit run, and NaN (`None`) when there is none; `ParseIntDigits` states its value on decimal digits and `NegativeExample` that a minus sign is kept |
| Engagement.Scale | cmd/download/facebookpht.js:32-33 | `Math.round(parseFloat(str) * factor)`, NaN staying NaN; `ScaledExamples`, `ThousandsRule` and `MillionsRule` state its results |
| Engagement.Round | cmd/download/facebookpht.js:32-33 | `Math.round` is within one half of its argument |
| Engagement.CaseInsensitive | cmd/download/facebookpht.js:31 | upper-casing the input never changes the count |
| Engagement.CommasIgnored | cmd/download/facebookpht.js:31 | removing commas from the input never changes the count |
| Engagement.SameNormalForm | cmd/download/facebookpht.js:30-34 | two non-empty inputs with the same normalised text get the same count |
| Engagement.EmptyNormalForm | cmd/download/facebookpht.js:31-34 | non-empty input whose normalised text is empty counts 0 (`parseInt('') \|\| 0`) |
| Engagement.ThousandsRule | cmd/download/facebookpht.js:32 | a `K` anywhere gives `Math.round(parseFloat(str) * 1000)` |
| Engagement.MillionsRule | cmd/download/facebookpht.js:33 | otherwise an `M` anywhere gives `Math.round(parseFloat(str) * 1000000)` |
| Engagement.PlainRule | cmd/download/facebookpht.js:34 | with neither letter the count is `parseInt(str)`, or 0 when that is NaN |
| Engagement.PlainIsNumber | cmd/download/facebookpht.js:34 | with neither letter the result is never NaN |
| Engagement.ParseIntDigits | cmd/download/facebookpht.js:34 | `parseInt` of plain decimal digits is the number they spell |
| Engagement.PlainDigits | cmd/download/facebookpht.js:34 | a count written in plain digits reads as that number |
| Engagement.ParseFloatDecimal | cmd/download/facebookpht.js:32 | `parseFloat` of `digits.digits` followed by other text is that decimal fraction, exactly |
| Engagement.ThousandsExample | cmd/download/facebookpht.js:29-35 | `"1.2K"` counts 1200, and `"1.2k"` counts the same |
| Engagement.MillionsExample | cmd/download/facebookpht.js:29-35 | `"3M"` counts 3000000 |
| Engagement.SeparatorExample | cmd/download/facebookpht.js:29-35 | `"1,234"` counts 1234 |
| Engagement.BareSuffixIsNaN | cmd/download/facebookpht.js:32 | `"K"` gives NaN, since `parseFloat` finds no number |
| Engagement.SuffixAnywhereExample | cmd/download/facebookpht.js:32-33 | `"12 likes"` counts 12000 and `"2 km"` counts 2000: the letter may be anywhere and `K` wins |
| Engagement.NegativeExample | cmd/download/facebookpht.js:34 | `"-5"` counts -5 |
| Locator.WalkIsAddAll | cmd/download/facebookpht.js:37-54 | the walk inserts the pre-order list of the two rules' hits into the set, one at a time |
| Locator.WalkExtends | cmd/download/facebookpht.js:37-54 | the walk only appends, keeps the set duplicate-free, and adds exactly the blob's hits |
| Locator.WalkIdempotent | cmd/download/facebookpht.js:37-54 | walking the same blob into the set twice adds nothing the second time |
| Locator.WalkPrimitive | cmd/download/facebookpht.js:38 | `null`, booleans, numbers and strings add nothing |
| Locator.WalkFinds | cmd/download/facebookpht.js:37-54 | a value is in the set afterwards exactly when it was before or is a hit of a node reachable from the blob |
| Locator.UriRuleCollects | cmd/download/facebookpht.js:40-44 | any reachable `uri` string containing `scontent` and not `static_map` is collected |
| Locator.PhotoRuleCollects | cmd/download/facebookpht.js:46-48 | any reachable truthy `photo_image.uri` is collected, whatever its type and text |
| Locator.StaticMapOnlyViaPhoto | cmd/download/facebookpht.js:41-48 | a collected `static_map` location came from some node's `photo_image.uri` |
| Locator.NestedExample | cmd/download/facebookpht.js:37-54 | a nested `uri` and a `photo_image.uri` inside an array are both found, in pre-order |
| Locator.UriHit | cmd/download/facebookpht.js:40-44 | the `uri` rule: a non-empty string `uri` that contains `scontent` and not `static_map`; `UriRuleCollects` and `StaticMapOnlyViaPhoto` state what it lets into the set |
| Locator.PhotoHit | cmd/download/facebookpht.js:46-48 | the `photo_image` rule: a truthy `photo_image.uri` of any type, with no test on its text; `PhotoRuleCollects` states it |
| Locator.Walk | cmd/download/facebookpht.js:37-54 | the recursion over the shared set: nothing for a primitive or `null`, then the two rules, then each child in enumeration order; `WalkIsAddAll`, `WalkExtends`, `WalkIdempotent` and `WalkFinds` state what it collects, and `FindImagesRecursive` is proved to compute it |
| Locator.Collect | cmd/download/facebookpht.js:37-54 | the independent reference for the walk: the hits of every reachable node in pre-order; `CollectSound` and `CollectComplete` show it holds exactly the hits of reachable nodes |
| Locator.ImageSet.constructor | cmd/download/facebookpht.js:91 | a new `Set` is empty |
| Locator.ImageSet.Add | cmd/download/facebookpht.js:42 | `Set.add` appends a value not yet present and otherwise changes nothing |
| Locator.AddUriHit | cmd/download/facebookpht.js:40-44 | the `uri` rule adds exactly the node's `uri` hit |
| Locator.AddPhotoHit | cmd/download/facebookpht.js:46-48 | the `photo_image` rule adds exactly the node's `photo_image.uri` hit |
| Locator.FindImagesRecursive | cmd/download/facebookpht.js:37-54 | the in-place recursive walk leaves the set equal to `Walk` of the old set, still duplicate-free |
| Harvest.NextScript | cmd/download/facebookpht.js:26 | a match found lies inside the text, in order, no earlier than `lastIndex` |
| Harvest.NextScriptIsLeftmostMatch | cmd/download/facebookpht.js:26 | `exec` returns the leftmost match with both lazy parts shortest, and returns null exactly when none exists from `lastIndex` on |
| Harvest.Matches | cmd/download/facebookpht.js:79 | each successive match lies inside the text, after the starting index |
| Harvest.MatchesAreMatches | cmd/download/facebookpht.js:26 | every match the loop visits is a match of the expression |
| Harvest.MatchesInOrder | cmd/download/facebookpht.js:79 | the loop visits matches in document order, and they never overlap |
| Harvest.HarvestScripts | cmd/download/facebookpht.js:77-83 | the loop collects the parsed captures of every match, in order |
| Harvest.ParseCapturesStep | cmd/download/facebookpht.js:79-82 | one turn of the loop pushes the next capture's blob if it parses, then resumes after the match |
| Harvest.SkipsUnparsable | cmd/download/facebookpht.js:80-82 | a capture that fails to parse is skipped, and the blobs before and after it are kept in order |
| Harvest.ParseCapturesMembers | cmd/download/facebookpht.js:77-83 | a blob is harvested exactly when some match's capture parses to it |
| Harvest.ParseCapturesLength | cmd/download/facebookpht.js:77-83 | there is at most one blob per match |
| Harvest.ParseCaptures | cmd/download/facebookpht.js:80-82 | `JSON.parse` of each capture, a failed parse skipped by the `catch`; `SkipsUnparsable`, `ParseCapturesMembers` and `ParseCapturesLength` state it |
| Harvest.Harvested | cmd/download/facebookpht.js:77-83 | what the loop leaves in `jsonScripts`: the parsed captures of all matches from the start; `HarvestScripts` is proved to compute it |
| Story.CaptureAt | cmd/download/facebookpht.js:65 | a capture starts with `\/story.php?`, is longer than that, and holds no `"` |
| Story.FindStory | cmd/download/facebookpht.js:66 | `match` returns the capture at the leftmost index where the expression matches, at or after the start, and nothing exactly when it matches nowhere; the capture is a story path without quotes |
| Story.StoryUrlOfCapture | cmd/download/facebookpht.js:69-70 | the rewritten capture is `https://www.facebook.com/story.php?` followed by more text, with no `"` |
| Story.StoryUrlShape | cmd/download/facebookpht.js:65-70 | any story address found in any page points into the site's story pages |
| Story.StoryUrl | cmd/download/facebookpht.js:69-70 | the capture with `\/` rewritten to `/` and the site's origin in front; `StoryUrlOfCapture` and `StoryUrlShape` state its shape |
| Story.ResolvePage | cmd/download/facebookpht.js:66-75 | the story page when the first page names one, the first page otherwise; `StoryPageSupersedes` and `NoStoryKeepsFirstPage` state it |
| Scraper.AuthorName | cmd/download/facebookpht.js:97 | `json.author && json.author.name` yields only truthy values |
| Scraper.AuthorOf | cmd/download/facebookpht.js:93-98 | the author is the name of the first blob naming one, or `"Unknown"` exactly when no blob does |
| Scraper.NextAuthor | cmd/download/facebookpht.js:96-97 | one blob's author step: a resolved author stays, a `null` blob throws on `author`, a truthy `author.name` replaces `Unknown`; `ResolvedAuthorStays` and `GatherOutcome` state it |
| Scraper.Gather | cmd/download/facebookpht.js:93-101 | the `forEach`: the author step then the walk, blob by blob, stopping at the first throw; `GatherOutcome` and `WalkAllFinds` state its result, and `GatherBlobs` is proved to compute it |
| Scraper.Keeps | cmd/download/facebookpht.js:104-108 | one call of the filter callback: a string is kept when it has no marker, an array when no element is exactly a marker string, and anything else throws for want of `includes`; `FilterCandidates`, `IncludesFailure` and `FilterSeesRawText` state it |
| Scraper.Finish | cmd/download/facebookpht.js:103-116 | filter, unescape, and throw when no image is left; `SuccessShape` and `FailureKinds` state its outcomes |
| Scraper.Aggregated | cmd/download/facebookpht.js:85-116 | everything after the harvest; `SuccessShape`, `FailureKinds`, `NoBlobsNoImages` and `JaneExample` state it, and `Aggregate` is proved to compute it |
| Scraper.Message | cmd/download/facebookpht.js:113-119 | the message of each thrown error: the `No images found` text, the `null` read, the missing method, the client's message; `FailuresWrapped` states how it reaches the caller |
| Scraper.Pipeline | cmd/download/facebookpht.js:56-116 | the body of the `try`: fetch, story redirect, harvest, aggregate; `StoryPageSupersedes` and `NoStoryKeepsFirstPage` state it |
| Scraper.Scraped | cmd/download/facebookpht.js:56-121 | `scrape(url)`: the pipeline with every failure rethrown as `Scrape Failed: ` plus its message; `FailuresWrapped` states it and `Scrape` is proved to compute it |
| Scraper.FilterCandidates | cmd/download/facebookpht.js:103-109 | the filter throws exactly when some candidate has no `includes`; otherwise it keeps, in order, exactly the candidates without a marker |
| Scraper.Unescape | cmd/download/facebookpht.js:110 | an unescaped location contains no backslash |
| Scraper.UnescapeAll | cmd/download/facebookpht.js:110 | the `map` succeeds exactly when every kept candidate is a string, and unescapes each in place |
| Scraper.GatherBlobs | cmd/download/facebookpht.js:91-101 | the in-place `forEach` gives the author and set that `Gather` specifies |
| Scraper.FilterEach | cmd/download/facebookpht.js:103-109 | the filter loop gives `FilterCandidates` of the candidates |
| Scraper.UnescapeEach | cmd/download/facebookpht.js:110 | the map loop gives `UnescapeAll` of the kept candidates |
| Scraper.Aggregate | cmd/download/facebookpht.js:85-114 | the aggregation method gives `Aggregated` of the blobs |
| Scraper.Scrape | cmd/download/facebookpht.js:56-121 | the whole call gives `Scraped`: fetch, optional story fetch, harvest, aggregate, wrap failures |
| Scraper.WalkAllFinds | cmd/download/facebookpht.js:93-101 | the shared set after every blob is duplicate-free, and holds exactly the hits of all blobs |
| Scraper.ResolvedAuthorStays | cmd/download/facebookpht.js:96 | once a real author is set, no later blob changes it or throws |
| Scraper.GatherOutcome | cmd/download/facebookpht.js:93-101 | the `forEach` throws exactly when a `null` blob precedes every naming blob; otherwise it gives the first author and every blob's hits |
| Scraper.SuccessShape | cmd/download/facebookpht.js:85-116 | a success has the first author, zero stats, and at least one image without a backslash; the candidates are duplicate-free, and the images are, in order, the unescaped forms of the subsequence of candidates made of exactly the marker-free strings |
| Scraper.FailureKinds | cmd/download/facebookpht.js:96-114 | aggregation fails only by `author` of null, a missing `includes` or `replace`, or no images, and each exactly when its cause holds |
| Scraper.IncludesFailure | cmd/download/facebookpht.js:103-109 | aggregation fails for want of `includes` exactly when no `author` of null comes first and some candidate is neither a string nor an array |
| Scraper.ReplaceFailure | cmd/download/facebookpht.js:103-110 | aggregation fails for want of `replace` exactly when no `author` of null comes first and the filter completes but keeps an array |
| Scraper.SuccessComplete | cmd/download/facebookpht.js:103-110 | on success every marker-free string candidate appears, unescaped, among the images |
| Scraper.KeptExactly | cmd/download/facebookpht.js:103-110 | when the map succeeds, the filter has kept exactly the candidates that are strings without a marker |
| Scraper.AggregatedSuccess | cmd/download/facebookpht.js:85-116 | a success means no `null` blob threw, the filter and the map completed with at least one image, and the result is those images under the first author |
| Scraper.NoBlobsNoImages | cmd/download/facebookpht.js:112-114 | a page without a usable blob fails with "No images found" |
| Scraper.FailuresWrapped | cmd/download/facebookpht.js:118-120 | every failure reaches the caller as `Scrape Failed: ` plus the thrown message; every success has images |
| Scraper.StoryPageSupersedes | cmd/download/facebookpht.js:68-75 | when the first page names a story, the result depends only on the story page |
| Scraper.NoStoryKeepsFirstPage | cmd/download/facebookpht.js:65-68 | without a story address the first page is the one harvested |
| Scraper.UnescapeIdempotent | cmd/download/facebookpht.js:110 | unescaping an unescaped location changes nothing |
| Scraper.FilterSeesRawText | cmd/download/facebookpht.js:103-110 | the filter tests the raw text: `c\p0` is kept, yet unescapes to `cp0`, which carries a marker |
| Scraper.DuplicatesAfterUnescape | cmd/download/facebookpht.js:91-110 | two distinct raw candidates can unescape to the same location, and both are returned |
| Scraper.EscapeOrderExample | cmd/download/facebookpht.js:110 | `\u0025` becomes `%` before backslashes are removed, and the other order would leave `u0025` |
| Scraper.JaneExample | cmd/download/facebookpht.js:85-116 | one blob naming `Jane` with one hosted image yields author `Jane` and exactly that image |
| Handler.JoinWords | cmd/download/facebookpht.js:125 | joining no arguments gives the empty text, and joining one gives that argument |
| Handler.JoinAppend | cmd/download/facebookpht.js:125 | `args.join(' ')` puts one space between consecutive arguments |
| Handler.InputUrl | cmd/download/facebookpht.js:125 | the query when it is non-empty, otherwise the arguments joined by spaces; `Validate` and `NothingGivenIsRefused` state it |
| Handler.MentionsFacebook | cmd/download/facebookpht.js:127 | the `i`-flagged host test: `facebook.com` or `fb.watch` occurs, in any letter case; `CaseDoesNotMatter`, `UpperCaseHostAccepted` and `OtherSiteRefused` state it |
| Handler.Validate | cmd/download/facebookpht.js:125-127 | the input is the query or else the joined arguments, and it is accepted exactly when non-empty and naming either host |
| Handler.CaseDoesNotMatter | cmd/download/facebookpht.js:127 | the host test ignores letter case |
| Handler.NothingGivenIsRefused | cmd/download/facebookpht.js:127 | no query and no arguments gets the usage reply |
| Handler.UpperCaseHostAccepted | cmd/download/facebookpht.js:127 | `FB.WATCH/x` is accepted |
| Handler.OtherSiteRefused | cmd/download/facebookpht.js:127 | a link to another site is refused, whatever the arguments |

## Left out

- The HTTP client (lines 58-61, 73) is the `fetch` parameter. The request headers, the
  redirect limit of 5 and response bodies that are not text are not modelled. A failed
  request is reduced to its error message.
- `JSON.parse` (line 81) is the `parse` parameter. The order of an object's members is
  whatever it gives, and is taken as the `for...in` order. It is trusted to give objects
  distinct keys: `Get` returns the first member with a key, where `JSON.parse` keeps the
  last of repeated keys in the text, and `Children` would visit both.
- `console.log` (line 71), the unused `JSON.stringify` (line 94), the `ui` labels and
  `__filename`/`__dirname` produce nothing the result depends on.
- The handler's replies, caption building, message sending and the 1.5-second pause
  (lines 128-168) are chat I/O.
- Engagement.ParseEngagement: takes text or nothing. `String(value)` of a number or an
  object is not modelled, because nothing in the file calls `parseEngagement` at all.
- Engagement.ParseFloat: numbers are exact decimals. Floating-point rounding, overflow to
  `Infinity` and the spelled-out `Infinity` literal are not modelled.
- Engagement.ParseInt: digits are read as exact integers. Rounding past 2^53 and `Infinity`
  for very long digit runs are not modelled, so PlainDigits and ParseIntDigits hold in this
  exact model only.
- Text.Upper: `toUpperCase` and `toLowerCase` map only ASCII letters. The other Unicode
  case mappings are not modelled.
- Locator.ImageSet.Add: the `Set` compares candidates by value. JavaScript compares objects
  and arrays by reference, so two equal objects from different blobs would be two entries
  there but one here. Strings, the usual candidates, compare the same way in both.
- Harvest.HarvestScripts: `lastIndex` is an explicit index starting at 0 for each call. The
  source keeps it on the instance, but every loop runs until `exec` returns `null`, which
  resets it to 0.
