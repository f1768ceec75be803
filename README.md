# vite-react-boilerplate, modelled in Dafny

This project models the logic inside the pages and helpers of a React
boilerplate. The modelled parts are:

- **BAK file page.** It lists backup files, streams conversion progress for
  one file as server-sent `data: ` frames, downloads the converted archive
  under a derived name, and shows a progress dialog.
- **Image component.** It rewrites URLs to WebP and falls back to a second
  source on error.
- **Mock items API** and the **items page** that filters those items and
  lists their categories.
- **Language switcher** of the mobile layout and of the home page.
- **Flag URL builder.**
- **Text of the table showcase:** range line, page label, sort glyph and
  summaries.

Files, one module each:

| file | module | models |
|---|---|---|
| `wrappers.dfy` | `Wrappers` | `Option` and `Result` |
| `jsstring.dfy` | `JsString` | the JavaScript string built-ins the core uses, on `seq<char>`: `includes`, `startsWith`, `endsWith`, `split`, `join`, ASCII `toLowerCase`, `String(n)` and `Number.parseInt(s, 10)` |
| `bakfiles.dfy` | `BakFiles` | `src/pages/ListBAKFiles.tsx`: the listing request, the name derivation, the stream reading as functions, and the page's download state as the class `DownloadController` |
| `webimage.dfy` | `WebImage` | `src/components/ui/image.tsx`: `convertToWebP`, and the component state as the class `Image` |
| `itemscatalog.dfy` | `ItemsCatalog` | `src/api/items.ts`: fixtures, `fetchItems`, `fetchItemDetail` |
| `itemsfilter.dfy` | `ItemsFilter` | `src/pages/ItemsList.tsx`: filtered items, sorted categories, empty-state hint |
| `flags.dfy` | `Flags` | `src/api/countries.ts`: `getFlagUrlByCountryCode` |
| `languages.dfy` | `Languages` | `src/components/layout/MobileLayout.tsx` and `src/pages/Home.tsx` |
| `tableshowcase.dfy` | `TableShowcase` | the text of `TanStackTableDevelopmentToolsShowcase.tsx` |

## What is a parameter

The model takes these as inputs instead of computing them:

- **Network replies.** Each request's outcome is an input value: the listing
  response, whether the stream opened, the decoded chunks as `seq<string>`,
  how the read loop ended, and the convert reply with its body bytes.
- **`JSON.parse` of one event.** It is a function parameter
  `parse: string -> Option<StreamEvent>`. `None` means the text did not parse
  or was not an object.
- **The filtered row count and page count** of the table library.

Effects are returned as data rather than performed: the two POST requests,
saving the file and the `alert`. `DownloadController` is the page's state:

- `downloadingName`, `progressByFile`, `messageByFile`;
- a read loop (`OnDownloadClick`) proved equal to the function
  `DownloadOutcome`;
- an inner loop over the segments of one chunk (`ProcessChunk`).

## Where the code is followed rather than the prose description

- **A name without `.bak` is kept as it is.** `"noext"` stays `"noext"`. The
  fallback `"result.rar"` is used only for the empty name, because the code
  writes `suggestedName || "result.rar"`.
- **A download does not reset the file's progress when it starts.** Only
  `downloadingName` is set. The reset to 0 and `""` happens in the `finally`
  block.
- **The seed is the first `random=` followed by a digit.** The regular
  expression `random=(\d+)` skips a `random=` with no digit after it and
  keeps searching.
- **An empty `downloadingName` shows no progress.** It is falsy, so both the
  active progress and the active message are empty.

A frame split across two chunks is lost: each chunk is split on `"\n\n"` on
its own. `BakFiles.SplitFrameNotReassembled` shows this for every cut of the
`data: ` prefix.

## Model

| member | source | states |
|---|---|---|
| BakFiles.FetchBakFiles | src/pages/ListBAKFiles.tsx:15-34 | the listing request; what it returns and each error message it throws are stated by FetchBakFilesOutcome |
| BakFiles.NormaliseEntry | src/pages/ListBAKFiles.tsx:32 | one step of the `map`: a bare name becomes a record without an archive, a record is kept; see Normalise |
| BakFiles.Normalise | src/pages/ListBAKFiles.tsx:30-33 | same length and order; a bare name `s` becomes `{bak: s, isZipExist: false}`, a record is kept unchanged |
| BakFiles.NormaliseRecords | src/pages/ListBAKFiles.tsx:31-33 | a list that holds only records normalises to itself |
| BakFiles.FetchBakFilesOutcome | src/pages/ListBAKFiles.tsx:15-34 | the listing succeeds exactly when the response is ok, `success` is true and `data` is an array, and then returns the normalised list; a non-ok status fails with "Request failed: " and the status, and a bad body fails with "Unexpected API response" |
| BakFiles.ApplyEventsLastWins | src/pages/ListBAKFiles.tsx:97-107 | applying events one by one leaves the file's percent at the last percent sent and its message at the last message sent; a field never sent keeps its old entry |
| BakFiles.ApplyEventsAppend | src/pages/ListBAKFiles.tsx:89-108 | applying two runs of events one after the other is applying their concatenation |
| BakFiles.ApplySegmentsAsEvents | src/pages/ListBAKFiles.tsx:89-112 | the segment loop is the application of the events of the segments that start with "data: " and whose text from offset 6 parses; other segments change nothing |
| BakFiles.SegmentEvent | src/pages/ListBAKFiles.tsx:90-96 | the event of one segment: parsed from offset 6 when the segment starts with "data: ", else none; see ApplySegmentsAsEvents and TerminatedFrame |
| BakFiles.ApplyEvent | src/pages/ListBAKFiles.tsx:97-107 | one event writes a numeric percent and a string message to the file's entries; see ApplyEventsLastWins and StreamTouchesOnlyFile |
| BakFiles.ApplySegment | src/pages/ListBAKFiles.tsx:90-112 | one segment applies its event, or changes nothing when it is skipped or does not parse; see ApplySegmentsAsEvents |
| BakFiles.ApplySegments | src/pages/ListBAKFiles.tsx:89-113 | the segments of a chunk applied in order; ApplySegmentsAsEvents states it as the events of the "data: " segments |
| BakFiles.ApplyChunk | src/pages/ListBAKFiles.tsx:87-113 | one chunk split on "\n\n" on its own and its segments applied; see ChunkWithoutDataIgnored, TerminatedFrame and SplitFrameNotReassembled |
| BakFiles.ApplyChunks | src/pages/ListBAKFiles.tsx:83-114 | the chunks applied in the order they are read; ApplyChunksAsEvents and StreamLastWins state the result |
| BakFiles.ApplyChunksAsEvents | src/pages/ListBAKFiles.tsx:83-114 | reading a stream applies, in order, the events of each chunk's own "\n\n"-separated segments |
| BakFiles.StreamLastWins | src/pages/ListBAKFiles.tsx:83-114 | after the read loop each field of the file holds the last value the stream sent for it |
| BakFiles.StreamTouchesOnlyFile | src/pages/ListBAKFiles.tsx:98-107 | the read loop leaves every other file's entries as they were, both present or absent and value |
| BakFiles.ChunkWithoutDataIgnored | src/pages/ListBAKFiles.tsx:88-90 | a chunk in which no segment starts with "data: " changes neither map |
| BakFiles.NoDataSegmentsNoEvents | src/pages/ListBAKFiles.tsx:90 | segments none of which starts with "data: " carry no event |
| BakFiles.SplitFrameNotReassembled | src/pages/ListBAKFiles.tsx:87-90 | for a payload without line breaks, a frame whose "data: " prefix is cut between two chunks, at any position, updates nothing, while the same bytes in one chunk set the percent |
| BakFiles.TerminatedFrame | src/pages/ListBAKFiles.tsx:88-92 | a chunk holding one "data: " frame whose body has no '\n', followed by the separator, applies exactly the event its body parses to (a body with a line break can split differently) |
| BakFiles.SuggestedName | src/pages/ListBAKFiles.tsx:136-139 | never empty; a trailing ".bak" in any case becomes ".rar"; any other non-empty name is kept; only "" gives "result.rar" |
| BakFiles.UpperReplaceRedundant | src/pages/ListBAKFiles.tsx:137-138 | the second replace (of ".BAK") never changes what the first produced |
| BakFiles.SuggestedNameIdempotent | src/pages/ListBAKFiles.tsx:136-139 | deriving the name twice gives the same name |
| BakFiles.SuggestedNameRenames | src/pages/ListBAKFiles.tsx:136-139 | "db.bak" gives "db.rar", "DUMP.BAK" gives "DUMP.rar", ".bak" gives ".rar" |
| BakFiles.SuggestedNameKeeps | src/pages/ListBAKFiles.tsx:136-139 | "noext" and "a.bak.zip" are kept, "" gives "result.rar" |
| BakFiles.Cleanup | src/pages/ListBAKFiles.tsx:144-148 | the `finally` block's reset of the file's entries to 0 and ""; see DownloadCleansUp |
| BakFiles.StreamOpenError | src/pages/ListBAKFiles.tsx:77-79 | the error thrown before any read, for a non-ok status or a missing body, or when the request is rejected; see StreamFailsWith500 and DownloadPhaseOrder |
| BakFiles.ConvertEffects | src/pages/ListBAKFiles.tsx:117-141 | the convert reply's effect: an alert for a rejected or non-ok reply, else saving the body under the derived name; see DownloadSavesOnSuccess |
| BakFiles.DownloadOutcome | src/pages/ListBAKFiles.tsx:65-155 | the handler as a function of its replies; see DownloadCleansUp, DownloadPhaseOrder and DownloadSavesOnSuccess, and OnDownloadClick, which is proved equal to it |
| BakFiles.DownloadCleansUp | src/pages/ListBAKFiles.tsx:142-148 | whatever the replies, the file ends with percent 0 and message "", and all other entries are those from before the download |
| BakFiles.DownloadPhaseOrder | src/pages/ListBAKFiles.tsx:69-130 | the stream request comes first; a failed stream open alerts before any read and never issues the convert request; the convert request is issued exactly when the stream opened and the loop ended on done, and it is the second effect |
| BakFiles.DownloadSavesOnSuccess | src/pages/ListBAKFiles.tsx:128-140 | a file is saved exactly when the convert reply is ok after a completed stream, as the third effect, under the derived name, with the reply's bytes |
| BakFiles.StreamFailsWith500 | src/pages/ListBAKFiles.tsx:77-79 | a stream answered with 500 yields the stream request, then the alert "Progress stream failed: 500", and the cleanup |
| BakFiles.TwoFrameProgress | src/pages/ListBAKFiles.tsx:87-108 | two example frames set the percent to 10 and then to 55 with message "packing" |
| BakFiles.TwoFrameDownload | src/pages/ListBAKFiles.tsx:65-155 | a whole download of "db.bak" shows progress 10, then 55 and "packing", saves "db.rar" and ends cleaned up |
| BakFiles.TwoFrameEffects | src/pages/ListBAKFiles.tsx:69-140 | whatever the stream carried, a completed download of "db.bak" with an ok convert reply has the effects: the stream request, the convert request, and saving "db.rar" |
| BakFiles.PercentOf | src/pages/ListBAKFiles.tsx:153 | the file's percent, or 0 when it has none; see ActiveProgress and RowAfterDownload |
| BakFiles.ActiveProgress | src/pages/ListBAKFiles.tsx:151-154 | 0 when no file, or the empty name, is downloading; otherwise the file's percent, or 0 when it has none |
| BakFiles.ActiveMessage | src/pages/ListBAKFiles.tsx:155 | the active file's message, or ""; see DialogShowsLastSent |
| BakFiles.DialogShowsLastSent | src/pages/ListBAKFiles.tsx:83-155 | while a named file downloads, the dialog shows the last percent and the last message the stream sent for it, or the entries from before the download for a field not yet sent |
| BakFiles.BarWidth | src/pages/ListBAKFiles.tsx:250 | the width lies in [0, 100], equals the shown value inside that range, and is 100 above it and 0 below it |
| BakFiles.RowOf | src/pages/ListBAKFiles.tsx:208-227 | a row's badge (percent above 0), message (non-empty entry) and button (disabled, "Downloading...", while the file downloads); see RowAfterDownload |
| BakFiles.RowAfterDownload | src/pages/ListBAKFiles.tsx:208-227 | after a download finishes, its row shows no percent badge, no message, and an enabled "Download" button |
| BakFiles.DownloadController.constructor | src/pages/ListBAKFiles.tsx:41-47 | nothing downloading and both maps empty |
| BakFiles.DownloadController.ProcessChunk | src/pages/ListBAKFiles.tsx:87-113 | the maps afterwards are the chunk applied to the maps before; `downloadingName` is unchanged |
| BakFiles.DownloadController.OnDownloadClick | src/pages/ListBAKFiles.tsx:65-149 | afterwards nothing is downloading, and the maps and the effects are those of `DownloadOutcome` on the maps before, so the cleanup, phase order and saving lemmas apply to the method |
| WebImage.ConvertToWebP | src/components/ui/image.tsx:15-47 | the rule chain in the source's order; see ConvertToWebPMarks, ConvertToWebPIdempotent, ConvertToWebPUnchangedIff, PicsumRule, UnsplashRule and ExtensionRule |
| WebImage.SeedSearch | src/components/ui/image.tsx:28 | finds the leftmost position from `i` where "random=" is followed by a digit, or reports that there is none |
| WebImage.PicsumSeed | src/components/ui/image.tsx:28-29 | the seed is a non-empty run of digits: the digits after the first "random=" followed by a digit, else "1" |
| WebImage.ImageExtensionLength | src/components/ui/image.tsx:42 | 4 or 5 exactly when the URL ends, ignoring case, in .jpg/.png/.gif or .jpeg, else 0 |
| WebImage.UnsplashSecondTestRedundant | src/components/ui/image.tsx:35 | testing "source.unsplash.com" adds nothing to testing "unsplash.com" |
| WebImage.ConvertToWebPMarks | src/components/ui/image.tsx:15-47 | the result is marked as WebP or is the URL unchanged |
| WebImage.ConvertToWebPIdempotent | src/components/ui/image.tsx:15-47 | converting twice gives the same as converting once |
| WebImage.ConvertToWebPUnchangedIff | src/components/ui/image.tsx:17-46 | the URL is returned unchanged exactly when it is already WebP, or it is neither Picsum nor Unsplash and has no convertible extension |
| WebImage.UnsplashRule | src/components/ui/image.tsx:35-38 | a URL that is not already WebP, not picsum and is Unsplash gets "&fm=webp" when it contains "?", else "?fm=webp" |
| WebImage.PicsumRule | src/components/ui/image.tsx:26-32 | a picsum URL that is not already WebP becomes the Unsplash Source URL whose seed is the digits of the first "random=" followed by a digit, or "1" when there is none |
| WebImage.ExtensionRule | src/components/ui/image.tsx:40-46 | a URL that is neither WebP, picsum nor Unsplash has a trailing ".jpeg" (5 characters) or ".jpg", ".png", ".gif" (4 characters), in any letter case, replaced by ".webp", and is returned unchanged otherwise |
| WebImage.UnsplashExamples | src/components/ui/image.tsx:35-38 | "unsplash.com/p" becomes "unsplash.com/p?fm=webp" and "unsplash.com/p?w=1" becomes "unsplash.com/p?w=1&fm=webp" |
| WebImage.PicsumExamples | src/components/ui/image.tsx:26-32 | "picsum.photos/200" gets seed "1" and "picsum.photos?random=42" gets seed "42" in the Unsplash Source replacement URL |
| WebImage.ExtensionExample | src/components/ui/image.tsx:42-43 | "a.JPEG" becomes "a.webp": a trailing extension is matched ignoring case |
| WebImage.InitialImage | src/components/ui/image.tsx:56-58 | the first render: the converted source, loading, no error; see ImageLifecycle |
| WebImage.OnError | src/components/ui/image.tsx:60-68 | `handleError`: switch to a present fallback that is not already shown, else set the error and stop loading; see ImageLifecycle and Image.HandleError |
| WebImage.OnLoad | src/components/ui/image.tsx:70-72 | `handleLoad`: loading stops; see ImageLifecycle and Image.HandleLoad |
| WebImage.ShowsPlaceholder | src/components/ui/image.tsx:74 | the placeholder condition `hasError && !fallback`; see PlaceholderAfterFailure |
| WebImage.ImageLifecycle | src/components/ui/image.tsx:56-72 | whatever load and error events arrive: the image shows the converted source or the fallback; an error state means loading has stopped and no source is left to try; the first failure switches to the fallback or sets the error; two failures always set the error; with no failure there is no error |
| WebImage.PlaceholderAfterFailure | src/components/ui/image.tsx:74-86 | the "No image" placeholder shows exactly when there is no fallback and at least one failure has occurred |
| WebImage.Image.constructor | src/components/ui/image.tsx:56-58 | the converted source, loading, no error |
| WebImage.Image.HandleError | src/components/ui/image.tsx:60-68 | the new state is the error transition of the old one: switch to a different non-empty fallback, else error and stop loading |
| WebImage.Image.HandleLoad | src/components/ui/image.tsx:70-72 | the new state is the old one with loading stopped |
| ItemsCatalog.FixturesAgree | src/api/items.ts:12-129 | the detail table has exactly the listed ids as keys, every entry's id is its key, and it agrees with the list item on title, description, price and category |
| ItemsCatalog.FetchItems | src/api/items.ts:142-163 | success, status 200, the five mock items, total their count |
| ItemsCatalog.DetailForKey | src/api/items.ts:175-204 | success exactly for a key of the detail table, with status 200 and that entry; otherwise status 404 and "Item not found"; meta is null either way |
| ItemsCatalog.FetchItemDetail | src/api/items.ts:168-205 | the detail reply for `parseInt(itemId, 10)`; see TrailingTextIgnored, ListedItemsHaveDetails, UnknownIdNotFound and NonNumericIdNotFound |
| ItemsCatalog.TrailingTextIgnored | src/api/items.ts:174 | an id followed by text that does not start with a digit ("3abc") finds the same result as the id alone ("3") |
| ItemsCatalog.ListedItemsHaveDetails | src/api/items.ts:12-129 | every listed item's id finds a detail with the same id, title, description, price and category |
| ItemsCatalog.UnknownIdNotFound | src/api/items.ts:174-189 | a number that is not a key gives 404 |
| ItemsCatalog.NonNumericIdNotFound | src/api/items.ts:174-189 | an id starting with a letter parses to NaN and gives 404 |
| ItemsFilter.MatchesSearch | src/pages/ItemsList.tsx:40-42 | the lower-cased query occurs in the lower-cased title or description; see FilterItems and QueryCaseIgnored |
| ItemsFilter.MatchesCategory | src/pages/ItemsList.tsx:43-44 | the category filter is "all" or equals the item's category; see FilterItems |
| ItemsFilter.FilterItems | src/pages/ItemsList.tsx:39-47 | every kept item matches the search (case-insensitive, title or description) and the category; each matching item is kept as often as it occurs and nothing else is; the order is kept |
| ItemsFilter.FilteredItems | src/pages/ItemsList.tsx:36-48 | no items without data, else the filtered items; see NoDataNothingShown and FilterItems |
| ItemsFilter.EmptyQueryKeepsAll | src/pages/ItemsList.tsx:39-47 | an empty query with "all" keeps every item |
| ItemsFilter.QueryCaseIgnored | src/pages/ItemsList.tsx:40-42 | lower-casing the query does not change the result |
| ItemsFilter.LexLeTotal | src/pages/ItemsList.tsx:56 | any two strings are ordered one way or the other |
| ItemsFilter.LexLeAntisymmetric | src/pages/ItemsList.tsx:56 | strings ordered both ways are equal |
| ItemsFilter.Insert | src/pages/ItemsList.tsx:56 | inserting in a sorted list keeps it sorted and adds exactly that element |
| ItemsFilter.SortStrings | src/pages/ItemsList.tsx:56 | the result is sorted and a permutation of the input |
| ItemsFilter.Distinct | src/pages/ItemsList.tsx:53-55 | no repeats, and exactly the values of the input |
| ItemsFilter.Categories | src/pages/ItemsList.tsx:51-57 | the distinct categories sorted, or none without data; see CategoriesSpec |
| ItemsFilter.CategoriesSpec | src/pages/ItemsList.tsx:51-57 | the category list is sorted, without repeats, and holds exactly the categories of the items (none while there is no data) |
| ItemsFilter.NoDataNothingShown | src/pages/ItemsList.tsx:36-57 | without data both the list and the categories are empty |
| ItemsFilter.MockCategories | src/pages/ItemsList.tsx:51-57 | for the mock items the categories are Accessories, Audio, Electronics |
| ItemsFilter.EmptyStateHint | src/pages/ItemsList.tsx:227-229 | the fixed sentence "Try adjusting your search or filter" exactly when a query is typed or the category is not "all"; otherwise the translation of the key "items.list.noItems" |
| Flags.SizeName | src/api/countries.ts:20-28 | a size name is "w" followed by digits |
| Flags.FlagUrl | src/api/countries.ts:17-35 | the flag URL with the defaults png and w40; see FlagUrlIgnoresCase, SvgIgnoresSize, DocumentedExample and FlagUrlDetermines |
| Flags.FlagUrlIgnoresCase | src/api/countries.ts:30 | codes equal up to case ("US", "us") give the same URL |
| Flags.SvgIgnoresSize | src/api/countries.ts:31-33 | the SVG URL is host, lower-cased code, ".svg", whatever the size |
| Flags.DocumentedExample | src/api/countries.ts:13-14 | ("us", png, w40) gives "https://flagcdn.com/w40/us.png", which is also what the defaults give |
| Flags.FlagUrlDetermines | src/api/countries.ts:17-35 | equal URLs come from the same format and the same lower-cased code, and for PNG the same size |
| Languages.FindFrom | src/components/layout/MobileLayout.tsx:41-43 | the first table index whose code is the resolved language, or -1 when no entry matches |
| Languages.CurrentLanguage | src/components/layout/MobileLayout.tsx:28-30 | the table entry whose code is the resolved language, else the English entry |
| Languages.LayoutNextIndex | src/components/layout/MobileLayout.tsx:44-46 | the next index always lies in [0, 3), so a next language always exists |
| Languages.LayoutNextLanguage | src/components/layout/MobileLayout.tsx:40-49 | the code the layout button switches to; see LayoutCycle, HomeAgreesWithLayout and ThreePressesReturn |
| Languages.LayoutCycle | src/components/layout/MobileLayout.tsx:40-49 | en goes to es, es to id, id to en; an unknown or undefined language has index -1 and goes to en |
| Languages.IndexOfFrom | src/pages/Home.tsx:10 | the first index holding the value, or -1 exactly when none does |
| Languages.HomeNextLanguage | src/pages/Home.tsx:9-13 | the result is always one of en, es, id |
| Languages.HomeCycle | src/pages/Home.tsx:9-13 | en (and undefined) go to es, es to id, id to en, and an unknown code such as "fr" to en |
| Languages.HomeAgreesWithLayout | src/pages/Home.tsx:10-12 | the two buttons choose the same next language exactly when the language is defined |
| Languages.ThreePressesReturn | src/pages/Home.tsx:11-12 | from a known language, three presses of either button return to it |
| Languages.ShowBackButton | src/components/layout/MobileLayout.tsx:19 | the back button shows exactly when the path is not "/" |
| Languages.BackAction | src/components/layout/MobileLayout.tsx:32-38 | history back exactly when the history holds more than one entry, else navigate to "/" |
| Languages.CurrentFlagUrl | src/components/layout/MobileLayout.tsx:92-96 | the language button's flag URL; see FlagForLanguage |
| Languages.FlagForLanguage | src/components/layout/MobileLayout.tsx:88-96 | Spanish shows the es flag and Indonesian the id flag; anything else, including unknown, shows the us flag, all as w40 PNG |
| TableShowcase.SortKey | src/components/utils/development-tools/TanStackTableDevelopmentToolsShowcase.tsx:281 | the key `getIsSorted() as string` looks up: "false", "asc" or "desc"; see GlyphsDistinguishDirections |
| TableShowcase.SortGlyph | src/components/utils/development-tools/TanStackTableDevelopmentToolsShowcase.tsx:278-281 | "↑" exactly for "asc", "↓" exactly for "desc", "↕" for anything else |
| TableShowcase.GlyphsDistinguishDirections | src/components/utils/development-tools/TanStackTableDevelopmentToolsShowcase.tsx:278-281 | different sort directions get different glyphs |
| TableShowcase.RangeStart | src/components/utils/development-tools/TanStackTableDevelopmentToolsShowcase.tsx:348-350 | the first row shown, `pageIndex * pageSize + 1`; see RangeBounds |
| TableShowcase.RangeEnd | src/components/utils/development-tools/TanStackTableDevelopmentToolsShowcase.tsx:354-358 | the last row shown, the `Math.min` of the page end and the filtered row count; see RangeBounds |
| TableShowcase.RangeText | src/components/utils/development-tools/TanStackTableDevelopmentToolsShowcase.tsx:346-364 | the range line; see RangeTextStart and ZeroRows |
| TableShowcase.RangeBounds | src/components/utils/development-tools/TanStackTableDevelopmentToolsShowcase.tsx:346-362 | the end never exceeds the total; the range holds at most a page; it is non-empty exactly when rows lie beyond the earlier pages, and then holds the remaining rows or a full page, whichever is less |
| TableShowcase.RangeTextStart | src/components/utils/development-tools/TanStackTableDevelopmentToolsShowcase.tsx:346-351 | the range line starts with "Showing " and its first number reads back as pageIndex*pageSize+1 |
| TableShowcase.ZeroRows | src/components/utils/development-tools/TanStackTableDevelopmentToolsShowcase.tsx:346-364 | with no rows on the initial page the line reads "Showing 1 to 0 of 0 results" |
| TableShowcase.PageLabel | src/components/utils/development-tools/TanStackTableDevelopmentToolsShowcase.tsx:415-416 | the page label; see PageLabelNumber and InitialPageLabel |
| TableShowcase.PageLabelNumber | src/components/utils/development-tools/TanStackTableDevelopmentToolsShowcase.tsx:415-416 | the page label starts with "Page " and its number reads back as pageIndex+1 |
| TableShowcase.InitialPageLabel | src/components/utils/development-tools/TanStackTableDevelopmentToolsShowcase.tsx:415-416 | the initial pagination `{0, 5}` is labelled page 1 |
| TableShowcase.SortingSummary | src/components/utils/development-tools/TanStackTableDevelopmentToolsShowcase.tsx:434-438 | the sorting summary; see SortingSummarySpec and SortingSummaryAppend |
| TableShowcase.FilterSummary | src/components/utils/development-tools/TanStackTableDevelopmentToolsShowcase.tsx:444-446 | the filter summary; see FilterSummarySpec and FilterSummaryAppend |
| TableShowcase.SortingSummarySpec | src/components/utils/development-tools/TanStackTableDevelopmentToolsShowcase.tsx:434-438 | "No sorting applied" exactly when nothing is sorted; otherwise every "id (asc/desc)" entry appears in the summary |
| TableShowcase.FilterSummarySpec | src/components/utils/development-tools/TanStackTableDevelopmentToolsShowcase.tsx:444-446 | "No filters applied" exactly when no filter is set; otherwise every "id: value" entry appears in the summary |
| TableShowcase.SortingSummaryAppend | src/components/utils/development-tools/TanStackTableDevelopmentToolsShowcase.tsx:434-438 | sorting one more column appends ", " and its entry, in state order |
| TableShowcase.FilterSummaryAppend | src/components/utils/development-tools/TanStackTableDevelopmentToolsShowcase.tsx:444-446 | filtering one more column appends ", " and its entry, in state order |
| JsString.IndexFrom | src/components/ui/image.tsx:18-20 | the first occurrence of the pattern at or after `i`, or -1 exactly when there is none |
| JsString.Split | src/pages/ListBAKFiles.tsx:88 | splitting gives at least one piece |
| JsString.SplitPieces | src/pages/ListBAKFiles.tsx:88 | no piece includes the separator, and no occurrence starts inside a piece followed by one; there is one piece exactly when the chunk does not include the separator, and otherwise the first piece ends where the first separator begins |
| JsString.SplitJoin | src/pages/ListBAKFiles.tsx:88 | joining the pieces with the separator gives back the chunk, so no text is lost or duplicated between segments |
| JsString.SplitWithoutSeparator | src/pages/ListBAKFiles.tsx:88 | a chunk without the separator is one segment |
| JsString.SplitTerminated | src/pages/ListBAKFiles.tsx:88 | a frame followed by the separator splits into the frame and an empty piece |
| JsString.JoinAppend | src/components/utils/development-tools/TanStackTableDevelopmentToolsShowcase.tsx:434-446 | joining one more string adds the separator and that string |
| JsString.JoinContainsEach | src/components/utils/development-tools/TanStackTableDevelopmentToolsShowcase.tsx:434-446 | every joined string occurs in the join |
| JsString.JoinEndsWithLast | src/components/utils/development-tools/TanStackTableDevelopmentToolsShowcase.tsx:437 | a join ends with its last string |
| JsString.ToLower | src/pages/ItemsList.tsx:41-42 | same length, each character folded to lower case (ASCII) |
| JsString.ToLowerIdempotent | src/pages/ItemsList.tsx:41-42 | lower-casing twice is lower-casing once, and leaves no capital letter |
| JsString.NatToString | src/pages/ListBAKFiles.tsx:23 | a non-empty run of digits, with no leading zero except for 0 |
| JsString.NatToStringValue | src/pages/ListBAKFiles.tsx:23 | the digits read back as the number |
| JsString.LeadingDigits | src/api/items.ts:174 | the longest prefix made of digits |
| JsString.ParseInt | src/api/items.ts:174 | `Number.parseInt(s, 10)`: white space, an optional sign, the leading digits, or NaN (`None`) without a digit; see ParseIntOfDigitStart, ParseIntOfNatString and TrailingTextIgnored |
| JsString.ParseIntOfNatString | src/api/items.ts:174 | `parseInt` of a number's digits followed by non-digit text is that number |
| JsString.ParseIntOfDigitStart | src/api/items.ts:174 | a string that starts with a digit reads as the value of its leading digits |
| JsString.TrimStart | src/api/items.ts:174 | a suffix of the input that does not start with white space, and every character removed before it is white space |

## Left out

- **Network and browser I/O.** Left out: `fetch`, the stream reader, `TextDecoder`, Blob and object URLs, the anchor click, the `beforeunload` and overflow effect, and `window.history`. Replies are inputs; effects are returned as values.
- **`JSON.parse`** is a function parameter. The model does not check the JSON grammar, and it does not distinguish a non-numeric `percent` from an absent one. The parser's `Option` result covers both.
- **Floating point.** Percents are integers, so `Math.round` is the identity. `Number.parseInt` returns an exact integer rather than a double.
- **Case folding is ASCII only; sorting uses code-point order.** `toLowerCase` and `toUpperCase` are modelled on ASCII letters only. `Array.prototype.sort` without a comparator compares strings by UTF-16 code units, while the model compares characters by code point. The two orders differ only when a character above U+FFFF is compared with one in U+E000–U+FFFF: UTF-16 puts the first one lower, because its leading surrogate lies in U+D800–U+DBFF. The model uses code-point order in that case.
- **React, react-query and async scheduling.** Handlers run one after another over explicit state. A download cannot overlap another click.
- **Mock network delay, `timestamp` and `requestId`** of the items API are not modelled. The list response's `message` and `meta` are constants.
- **TanStack Table's row models.** Their sorting, filtering and pagination, and the lazily loaded devtools, are library code. The filtered row count and the page count are parameters. The sample people table is not modelled.
- **Form example, route files, select component, table page wrapper, item detail page and styling** are glue or markup and are not part of this model.
- **Flag alt text.** `code.toUpperCase() + " flag"` on the language button is not modelled; it is markup text.
- JsString.Split: requires a non-empty separator. The only separator the core uses is `"\n\n"`.
- BakFiles.PercentOf: the code looks a file up in a plain object, so a file name that is an `Object.prototype` property (`constructor`, `toString`, `__proto__`) finds an inherited value before the stream writes one. The model assumes file names are not such property names, and returns 0 where the code would compute NaN.
- BakFiles.ActiveProgress: for a downloading file whose name is an `Object.prototype` property, the code shows a NaN percent and a `NaN%` bar width. The model assumes file names are not such property names, and gives 0.
- BakFiles.ActiveMessage: for such a file name the code's message lookup finds an inherited, truthy value. The model assumes file names are not such property names, and gives "".
- BakFiles.RowOf: for such a file name the code's row tests the inherited property values, which makes its message test truthy. The model assumes file names are not such property names: no badge and no message.
- BakFiles.Normalise: a listing entry is either a string or a `{bak, isZipExist}` record. Other JSON values, which the code would pass through unchanged, are not represented.
- WebImage.Image.constructor: the component keeps `imageSrc` when the `src` prop later changes. The model creates one image per `src` and does not model a prop change.
- ItemsCatalog.DetailForKey: the 404 reply's `data.item` is `{}` in the code. The model uses `None`, so it does not model an empty object typed as an item.
- ItemsCatalog.FetchItemDetail: JavaScript object keys are strings, so `mockItemDetails[NaN]` is looked up under "NaN". No key is "NaN", so the model reads NaN as a miss directly.
