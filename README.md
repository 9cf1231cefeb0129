# save-it clipboard history, modelled in Dafny

save-it is a browser extension that keeps a history of copied text. A content
script on every page listens for copy events. It trims the copied text and, when
anything is left, puts it at the head of a list stored under the key
`clipboardTextList`. A popup panel shows that list. The panel can search it
(case-insensitive substring match), join the filtered or the whole list with CR LF
to copy it to the clipboard ("Copy selected" / "Copy all"), copy one entry by
clicking its row, and clear the stored history ("Remove all").

The model has these modules:

- `JsString` (`js_string.dfy`) models the JavaScript string built-ins the code uses:
  `trim` with the ECMAScript whitespace set, `toLowerCase` on ASCII letters,
  `indexOf`/`includes` and `join`. It also has `SplitLines`, the inverse of joining
  with CR LF.
- `Storage` (`storage.dfy`) treats the store as a value: a map from keys to string
  lists, where each `set` replaces the value under one key.
- `ContentScript` (`content_script.dfy`) holds the capture rule `Capture`. `OnCopy`
  applies it to a store, and `CopySession` is the effect of a run of copies.
- `PopupView` (`popup_view.dfy`) holds the panel's pure computations: `Filter`,
  `DisplayText` (truncation to the first match), `Highlight` (every
  non-overlapping occurrence, found left to right, replaced by the lowercased query
  inside a `<span>` marker, so a highlighted match shows in lower case), `Height`, the rendered `Row`s and `Merge`.
- `Popup` (`popup.dfy`) has the class `Panel`, which holds the panel's module
  state: `list`, `filteredList`, the merge button's label, the rows and the height.
  Its methods are the event handlers. `Populate` keeps the source's two loops:
  first remove every row, then append one row per entry. After the class come
  client methods that run the handlers in sequence.
- `Wrappers` and `Sequences` are small helpers: `Option`, subsequence and reverse.

The model keeps three quirks of the code as they are:

- "Remove all" writes `[]` and removes the rows but leaves `list` unchanged
  (popup.js:39-42). A later "Copy all" therefore still copies the old entries
  (`ClearThenMerge`).
- Every search filters the `list` loaded when the panel opened (popup.js:21, 29).
  After a clear, a search brings the cleared entries back (`ClearThenSearch`).
- A match at offset 0 is not truncated (popup.js:86). Nothing is lost by this: the
  whole entry already begins with the match (`DisplayTextWhole`).

## Model

| member | source | states |
|---|---|---|
| `JsString.Trim` | src/contentScript.js:5 | `String.prototype.trim`: strip whitespace from the start, then from the end. `TrimSpec`, `TrimEmptyIff`, `TrimmedEnds` and `TrimIdempotent` specify it. |
| `JsString.TrimSpec` | src/contentScript.js:5 | `trim` keeps one contiguous slice of the text. Everything cut off on either side is whitespace. A non-empty result starts and ends with a non-whitespace character. |
| `JsString.TrimEmptyIff` | src/contentScript.js:5-6 | The trimmed text is empty exactly when every character of the copied text is whitespace. |
| `JsString.TrimmedEnds` | src/contentScript.js:5 | A non-empty trimmed text has no whitespace at either end. |
| `JsString.TrimIdempotent` | src/contentScript.js:5 | Trimming twice gives the same text as trimming once. |
| `JsString.Lower` | src/popup.js:31-32 | The reference definition of ASCII `toLowerCase`: the length is kept and each character is lowered. Its properties are in `LowerIdempotent` and `LowerKeepsLowercase`. |
| `JsString.LowerIdempotent` | src/popup.js:31-32 | Lowering an already lowercased query changes nothing, so the lowered query matches itself. |
| `JsString.LowerKeepsLowercase` | src/popup.js:31-32 | Text with no ASCII capital is its own lowercase form. |
| `JsString.IndexOf` | src/popup.js:85 | `indexOf` returns the first index where the query occurs, and no occurrence lies before it; it returns -1 exactly when the query does not occur anywhere. |
| `JsString.IncludesIff` | src/popup.js:32 | `includes` holds exactly when the query occurs at some index. |
| `JsString.Join` | src/popup.js:47-49 | `Array.prototype.join(sep)`: "" for no parts, else the parts with `sep` between each two neighbours. `JoinLength` and `JoinAppend` specify it, and `SplitJoin` inverts it. |
| `JsString.JoinLength` | src/popup.js:47-49 | A join has the length of all parts plus one separator between each two neighbours. |
| `JsString.JoinAppend` | src/popup.js:47-49 | Joining two non-empty lists puts exactly one separator between the two joins. |
| `JsString.SplitJoin` | src/popup.js:47-49 | Splitting a CR LF join at CR LF gives back exactly the parts, when no part holds CR LF. |
| `Storage.Get` | src/contentScript.js:7 | `get(['clipboardTextList'])`: the stored value, or none when the key was never written; `Capture` counts none as the empty history. |
| `Storage.Set` | src/contentScript.js:9 | A store write replaces the value under its key in full and leaves every other key as it was. |
| `ContentScript.Capture` | src/contentScript.js:5-8 | A write happens exactly when the trimmed text is non-empty. The written history is the trimmed entry followed by the stored history, with an absent history counted as empty. |
| `ContentScript.OnCopy` | src/contentScript.js:7-9 | The copy listener on one store: read the history, then write the captured history under the history key. `OnCopyWritesOnlyHistory` specifies it. |
| `ContentScript.CopySession` | src/contentScript.js:2-14 | Copies applied one after another with no other writer. `CopySessionHistory` specifies it. |
| `ContentScript.CapturePrepends` | src/contentScript.js:5-8 | With history `H` stored, a non-blank copy writes exactly `[trim(T)] + H`. |
| `ContentScript.CaptureFirst` | src/contentScript.js:8 | With no history stored yet, a non-blank copy writes `[trim(T)]`. |
| `ContentScript.CaptureBlank` | src/contentScript.js:6 | An all-whitespace copy writes nothing, and the outcome is the same whatever is stored, so the store need not be read. |
| `ContentScript.CapturedEntryTrimmed` | src/contentScript.js:5-6 | The new entry is non-empty, has no whitespace at either end, and is unchanged by trimming. |
| `ContentScript.CaptureKeepsHistory` | src/contentScript.js:8 | The new history is one longer. The old entries follow the new one in their old order. The entries are the old ones plus the new one, with duplicates kept. |
| `ContentScript.OnCopyWritesOnlyHistory` | src/contentScript.js:7-9 | A copy changes no key other than `clipboardTextList`. That key exists afterwards exactly when it existed before or the text was not blank. A blank copy leaves the store equal to what it was. |
| `ContentScript.CopySessionHistory` | src/contentScript.js:2-14 | After copies with no other writer, the history is the recorded entries, most recent first, ahead of the old history. No other key changes. |
| `ContentScript.CopyExample` | src/contentScript.js:5-6 | Copying "  hello  " records "hello". Copying "   " records nothing. |
| `PopupView.Filter` | src/popup.js:32 | `list.filter(item => item.toLowerCase().includes(q))`. `FilterSpec`, `FilterMembers`, `FilterShorter`, `FilterIdempotent` and `FilterAppend` specify it. |
| `PopupView.FilterSpec` | src/popup.js:32 | The filtered list is a subsequence of the list. It holds each matching entry as often as the list does, and no entry that does not match. |
| `PopupView.FilterMembers` | src/popup.js:32 | An entry is in the filtered list exactly when it is in the list and its lowercase form contains the query. |
| `PopupView.FilterShorter` | src/popup.js:32 | Filtering never makes the list longer. |
| `PopupView.FilterMatchesAll` | src/popup.js:32 | Every entry of a filtered list matches the query. |
| `PopupView.FilterAllMatch` | src/popup.js:32 | A list whose entries all match is left unchanged. |
| `PopupView.FilterIdempotent` | src/popup.js:32 | Filtering twice with the same query gives the same list as filtering once. |
| `PopupView.FilterAppend` | src/popup.js:32 | Filtering a concatenation gives the concatenation of the filtered parts, so relative order is kept. |
| `PopupView.FilterEmptyQuery` | src/popup.js:29-32 | The empty query would keep every entry, which agrees with the handler keeping `list` unfiltered. |
| `PopupView.FilterExample` | src/popup.js:32 | Searching "ba" in ["foo", "bar baz"] keeps only "bar baz". |
| `PopupView.DisplayText` | src/popup.js:85-86 | The row text under a query: "..." and the entry from the first match when that match is past offset 0, else the entry. `DisplayTextTruncates` and `DisplayTextWhole` specify it. |
| `PopupView.DisplayTextTruncates` | src/popup.js:85-86 | When the first case-insensitive match is at `k > 0`, the row shows "..." followed by the entry from `k`, and that suffix begins with the match (its lowercase form matches the query at offset 0). |
| `PopupView.DisplayTextWhole` | src/popup.js:86 | An entry matching at offset 0, or not at all, is shown whole. |
| `PopupView.DisplayExample` | src/popup.js:85-86 | "bar baz" under "baz" shows "...baz". Under "bar" it shows "bar baz". |
| `PopupView.Highlight` | src/popup.js:87-89 | The global case-insensitive replace: scanning left to right, each non-overlapping occurrence becomes the marker. `HighlightFirst`, `HighlightAtMatch`, `HighlightNoMatch` and `HighlightVisible` specify it. |
| `PopupView.HighlightVisible` | src/popup.js:87-89 | For text without markup, the visible text of the highlighted markup has the original length and the original lowercase form. |
| `PopupView.HighlightNoMatch` | src/popup.js:87-89 | Text with no case-insensitive occurrence of the query is not changed. |
| `PopupView.HighlightFirst` | src/popup.js:87-89 | The text before the first occurrence is kept. The occurrence is replaced by the marker, and the scan continues after it. |
| `PopupView.HighlightAtMatch` | src/popup.js:87-89 | When the left-to-right scan reaches an occurrence at `k`, that occurrence is replaced by the marker and the scan resumes right after it. Occurrences overlapping a marked one are not marked. |
| `PopupView.HighlightExample` | src/popup.js:89 | Highlighting "ba" in "bar baz" marks both occurrences. |
| `PopupView.Height` | src/popup.js:75 | `Math.min(100, itemsCount * 41)`. `HeightBounds` and `HeightMonotone` specify it. |
| `PopupView.HeightBounds` | src/popup.js:75 | The height is 41 pixels per row, capped at 100: 41·n for n ≤ 2 and 100 from three rows on. |
| `PopupView.HeightMonotone` | src/popup.js:75 | More rows never give a smaller height. |
| `PopupView.RenderItem` | src/popup.js:81-92 | With a query active, the row keeps the full entry as hidden data. Without one, the row is the entry itself and has no hidden data. |
| `PopupView.RenderAll` | src/popup.js:71-74 | The reference definition of the rendering loop: one row per entry, in list order. `Panel.Populate`'s loop is proved equal to it. |
| `PopupView.CopyText` | src/popup.js:59 | What a row click copies: the hidden full text when it is set and non-empty, else the row's text. `RowCopiesEntry` specifies it. |
| `PopupView.RowCopiesEntry` | src/popup.js:59-60 | Clicking a rendered row copies the original entry, even when the row shows it truncated or highlighted. |
| `PopupView.RenderedCopies` | src/popup.js:59-60 | The rows of a rendered list copy exactly that list, row by row. |
| `PopupView.Merge` | src/popup.js:47-49 | The merged clipboard text: entries joined by CR LF. `MergeRecoversEntries` inverts it. |
| `PopupView.MergeRecoversEntries` | src/popup.js:47-49 | Merged text splits back into the merged entries, when no entry holds CR LF. |
| `Popup.Panel.Open` | src/popup.js:19-24 | Opening the panel keeps the loaded history as `list` and shows it unfiltered, one row per entry, with the matching height. |
| `Popup.Panel.Populate` | src/popup.js:66-78 | All existing rows are removed. The new rows are exactly one per entry in order, and the height matches their number. Given entries drawn from `list`, the panel invariant is kept. |
| `Popup.Panel.ToggleMergeButtonState` | src/popup.js:121-123 | The label is "Copy selected" while a query is active and "Copy all" otherwise. |
| `Popup.Panel.OnSearchInput` | src/popup.js:27-36 | `filteredList` is `list` for an empty query and is `Filter(list, lowercase query)` otherwise. The rows show it with that query, the label switches, `list` is unchanged, and the panel invariant holds. |
| `Popup.Panel.OnClear` | src/popup.js:39-42 | `[]` is written under the history key, and zero rows are shown with height 0. `list`, `filteredList` and the label are unchanged. |
| `Popup.Panel.OnMerge` | src/popup.js:45-50 | When the label reads "Copy selected", the clipboard gets `filteredList` joined by CR LF; otherwise it gets `list` joined by CR LF. |
| `Popup.Panel.OnItemClick` | src/popup.js:55-63 | A click on a row copies the row's full text, or its shown text when it has none; this is always an entry of `list`. A click beside the rows copies nothing. |
| `Popup.SearchThenMerge` | src/popup.js:27-52 | After a search, merging copies the matching entries joined by CR LF, or all entries for an empty query. |
| `Popup.SearchThenClick` | src/popup.js:27-63 | After a search, clicking row `i` copies the `i`-th matching entry in full. |
| `Popup.ClearThenMerge` | src/popup.js:38-52 | After "Remove all" the store holds `[]`, yet "Copy all" still copies every entry loaded at open. |
| `Popup.ClearThenSearch` | src/popup.js:26-42 | A search after "Remove all" makes `filteredList` the matching entries of the list loaded at open, or all of them for an empty query, whatever earlier query was typed; the rows are that list rendered with the query. |

## Left out

- Storage I/O: the asynchronous `chrome.storage` `get`/`set` callbacks are left out. Reads and writes are whole values in `Storage`.
- Storage.Set: every write is modelled as succeeding. The browser's sync store refuses a write over its per-item quota or write-rate limits, and the empty callback (contentScript.js:9) ignores the refusal. So once the history is large it silently stops growing, which `CopySessionHistory` does not capture.
- The `onChanged` listener (popup.js:11-16) is not modelled. It passes the change record, not a list, to the renderer.
- Clipboard access: `navigator.clipboard.readText` and its failures are left out, and so is the `execCommand('copy')` textarea trick (popup.js:97-104). The text read is a parameter, and "copy to the clipboard" is the returned string.
- The tooltip and its timers (popup.js:107-118) are left out: UI only.
- HTML interpretation: `innerHTML` is kept as a string in `Row.html`, and that string also stands for the row's `textContent` when a row has no hidden full text. An entry holding markup would show differently in a browser. It would also copy differently: with no query a row has no hidden full text, so a click copies its `textContent` (popup.js:59, 91), which for an entry such as `a<b>c` or `x &amp; y` is not the entry. `RowCopiesEntry`, `RenderedCopies` and the empty-query case of `SearchThenClick` therefore hold in the browser only for entries without tags or character references.
- DOM nodes and event routing, including mapping a click on a `span` to its row (popup.js:56), are left out. A click is given as a row index.
- `Highlight` models `new RegExp(searchString, "ig")` only as a literal case-insensitive match (popup.js:87). The query is not escaped, so a query with regular expression metacharacters behaves differently in the browser.
- `Lower` models `toLowerCase` on ASCII letters only; Unicode case mapping is left out.
- Concurrency: the unguarded read-modify-write on the store by several tabs is left out. `CopySession` assumes the copies run one after another.
- The panel crashes when no history is stored yet (popup.js:21-22); unlike contentScript.js:8, it does not default to an empty list. `Panel.Open` takes the loaded list as given.
- The `typeof item === "string"` test in the filter (popup.js:32) is not modelled: every stored entry is a string in the model.
- The merge button's initial text comes from the panel's HTML page, which is not part of this model; `Panel.Open` starts it at "Copy all".
