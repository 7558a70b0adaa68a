# PyeongBee-Base editor core in Dafny

This project models the logic behind the PyeongBee-Base essay editor. The
editor is a Next.js application for revising a cover letter: the writer keeps
an original text and an edited one, sees word-level changes between them,
runs a Korean spell check whose findings are highlighted in the text, and
shares the pair through the browser's local storage. The modelled parts are:

- **Text statistics** (`TextUtils`). These are the character, word and line
  counts and the over-limit flag. The word count is proved equal to the
  number of maximal non-whitespace runs, with whitespace as JavaScript's `\s`.
- **The changes view** (`DiffViewer`). The imperative regrouping of the diff's
  parts into numbered lines is proved equal to a declarative definition: a
  token stream, cut at line breaks, with empty groups dropped. Properties are
  proved about that definition: the segments in order, the text they hold,
  and a bound on the number of lines. The original view and the result counts
  are modelled too.
- **Highlighting** (`HighlightedText`). The loop that cuts a text into plain
  and highlighted parts is proved equal to a recursive walk over the
  suggestions, sorted by a stable sort. Three properties are proved: one
  highlighted part per suggestion in start order; the parts put back together
  give the text when the suggestions lie where they claim and do not overlap;
  and the colour rule.
- **The stores.** The spell-check store (`SpellCheckStore.Store`), the toast
  queue (`ToastStore.Store`) and the editor page's state (`EditorPage.Editor`)
  are classes. Each action replaces fields, and the lists it builds are pure
  functions with their own lemmas.
- **The share history** (`ShareHistoryUtils`). Local storage is a map field of
  a `Storage` class.
- **The spell-check endpoint** (`SpellCheckRoute`). This covers the check of
  the request's text and the mapping of the checker's findings to spans.
- **The relative dates of the activity page** (`ActivityPage`).
- **The editor page's rules** (`EditorPage`). These are the hiding header,
  the `parseInt(value) || 500` limit field, the loading of a shared essay and
  the statistics panel.

`Strings` models the JavaScript string built-ins these rely on. `Wrappers`
holds `Option`.

Two behaviours of the code are worth knowing:

- A blank line of the edited text does not appear in the changes view,
  because a line is pushed only when its segment list is non-empty
  (src/components/editor/DiffViewer.tsx:80-84, `DiffViewer.BlankLinesDropped`),
  while `getLineCount` counts it.
- `onApplyCorrections` (src/components/editor/SpellCheckSidebar.tsx:62,
  src/types/editor.ts:50) has no implementation in these files, so applying
  the chosen corrections is not modelled.

## Model

| member | source | states |
|---|---|---|
| TextUtils.GetWordCount | src/utils/textUtils.ts:9-11 | The count equals the number of maximal runs of non-whitespace in the text, and it is 0 exactly when the text is empty or all whitespace. |
| TextUtils.GetLineCount | src/utils/textUtils.ts:13-15 | The count is 0 for the empty text, otherwise one more than the number of line breaks. |
| TextUtils.GetCharacterCount | src/utils/textUtils.ts:5-7 | The count is the text's length, and it is 0 only for the empty text. |
| TextUtils.CharacterCountAppend | src/utils/textUtils.ts:5-7 | The count of two texts joined is the sum of their counts. |
| TextUtils.IsOverLimit | src/utils/textUtils.ts:21-23 | A count is over the limit exactly when it is at least one more than the limit. |
| TextUtils.GetTextStats | src/utils/textUtils.ts:32-43 | The character count is the length. The word count is the number of runs. The line count follows the line rule. The text is over the limit exactly when its length exceeds the limit. |
| TextUtils.WordCountBounds | src/utils/textUtils.ts:9-11 | A non-blank text has at least one word and no more words than characters. |
| TextUtils.OverLimitBoundary | src/utils/textUtils.ts:21-23 | A text of exactly the limit's length is within it, and one more character puts it over. |
| TextUtils.LineCountPositive | src/utils/textUtils.ts:13-15 | Only the empty text has zero lines. |
| Strings.TrimStart | src/utils/textUtils.ts:10 | The result is a suffix of the input, everything cut is whitespace, and the result does not start with whitespace. It is empty exactly when the input is all whitespace. |
| Strings.TrimEnd | src/utils/textUtils.ts:10 | The result is a prefix of the input, everything cut is whitespace, and the result does not end with whitespace. It is empty exactly when the input is all whitespace. |
| Strings.Trim | src/utils/textUtils.ts:10 | The result is a contiguous part of the input with only whitespace cut before and after it, and it neither starts nor ends with whitespace. It is empty exactly when the input is all whitespace. |
| Strings.SplitOn | src/components/editor/DiffViewer.tsx:76 | `split(c)` yields one more piece than there are occurrences of `c`, and no piece contains `c`. |
| Strings.JoinSplitOn | src/components/editor/DiffViewer.tsx:54 | Joining the pieces of `split(c)` with `c` gives back the string. |
| Strings.ConcatSplitOn | src/components/editor/DiffViewer.tsx:76 | Concatenating the pieces of `split(c)` gives the string with every `c` removed. |
| Strings.WordRunsTrimEnd | src/utils/textUtils.ts:10 | Stripping trailing whitespace does not change the number of words. |
| Strings.WordRunsTrim | src/utils/textUtils.ts:10 | Trimming does not change the number of words. |
| Strings.SplitRunsCount | src/utils/textUtils.ts:10 | `split(/\s+/)` of a string that ends in a non-space yields as many pieces as there are words, plus one for a leading space. |
| Strings.IndexOf | src/app/api/spell-check/route.ts:43 | `indexOf` is -1 or an occurrence, and no occurrence lies before it. When it is -1, there is no occurrence at all. |
| Strings.Slice | src/components/editor/HighlightedText.tsx:29 | `slice(from, to)` with indices inside the string is the substring between them. |
| Strings.NatToStringValue | src/app/activity/page.tsx:79 | The decimal rendering of a number reads back as that number. |
| DiffViewer.KindOf | src/components/editor/DiffViewer.tsx:96-114 | A removed part is styled as removed even when also flagged added. An added part that is not removed is styled as added. Any other part is unchanged. |
| DiffViewer.GroupLines | src/components/editor/DiffViewer.tsx:69-131 | The lines are numbered 1, 2, 3, ... with no gap, and none of them is empty. |
| DiffViewer.PushPart | src/components/editor/DiffViewer.tsx:74-117 | After one part's fragments, the lines built so far, the open line and the next line number are those that the declarative grouping gives for the tokens seen so far. |
| DiffViewer.PushFragment | src/components/editor/DiffViewer.tsx:78-116 | One fragment extends what was built to the declarative grouping of one more fragment's tokens. |
| DiffViewer.RenderEditedText | src/components/editor/DiffViewer.tsx:64-131 | The placeholder appears exactly when both texts are empty. Otherwise the imperative grouping yields exactly the declaratively defined lines. |
| DiffViewer.SegmentsOfGroupLines | src/components/editor/DiffViewer.tsx:74-117 | The segments of all lines, in order, are the non-empty line fragments of every part, in part order, each tagged with its part's kind. |
| DiffViewer.GroupLinesText | src/components/editor/DiffViewer.tsx:95-115 | The segment texts together are every part's text with the line breaks removed. No segment is empty or holds a line break. |
| DiffViewer.LineCountBound | src/components/editor/DiffViewer.tsx:119-131 | There are at most as many lines as line breaks in the parts, plus one. |
| DiffViewer.BlankLinesDropped | src/components/editor/DiffViewer.tsx:79-92 | An unchanged part "a\n\nb" gives two lines in the changes view, while the line count says three. |
| DiffViewer.BlankLinesTokens | src/components/editor/DiffViewer.tsx:76-115 | The part "a\n\nb" becomes a piece, two breaks and a piece. |
| DiffViewer.BlankLinesGroups | src/components/editor/DiffViewer.tsx:79-92 | Cutting that token stream at its breaks gives the groups [a], [] and [b]. |
| DiffViewer.BlankLinesNonEmpty | src/components/editor/DiffViewer.tsx:81 | Dropping empty groups removes the blank middle line. |
| DiffViewer.RenderOriginalText | src/components/editor/DiffViewer.tsx:49-61 | The placeholder appears exactly when the original is empty. Otherwise there are as many lines as the line count, numbered from 1, each non-empty and without a line break. |
| DiffViewer.OriginalLinesJoin | src/components/editor/DiffViewer.tsx:54-58 | Each line shows its `split('\n')` piece, or a no-break space for a blank piece. The pieces joined by line breaks are the original text. |
| DiffViewer.EditedCounts | src/components/editor/DiffViewer.tsx:21-27 | The component's own counting formulas agree with the text utilities' statistics of the edited text, including the over-limit flag. |
| HighlightedText.Insert | src/components/editor/HighlightedText.tsx:23 | Inserting into a start-sorted list keeps it sorted, adds exactly the one entry (as a multiset) and brings in nothing else. |
| HighlightedText.SortByStart | src/components/editor/HighlightedText.tsx:23 | The copy is sorted by start and is a permutation of the suggestions. |
| HighlightedText.PartsOf | src/components/editor/HighlightedText.tsx:19-50 | The parts the loop pushes are exactly the recursive walk of the sorted suggestions from cursor 0. |
| HighlightedText.PushSuggestion | src/components/editor/HighlightedText.tsx:25-42 | One turn pushes the suggestion's gap, when it starts after the cursor, and its highlighted token, then moves the cursor to its end (or to start plus token length when the end is 0). What is pushed and what is still to walk keep making up the whole walk. |
| HighlightedText.PushTail | src/components/editor/HighlightedText.tsx:44-50 | A plain part for the rest of the text is added exactly when the cursor is before the end. |
| HighlightedText.Render | src/components/editor/HighlightedText.tsx:14-50 | The whole text is shown unsplit exactly when the text or the suggestion list is empty. Otherwise the result is the partition of a sorted copy. |
| HighlightedText.PartitionHighlighted | src/components/editor/HighlightedText.tsx:25-42 | There is exactly one highlighted part per suggestion, in ascending start order, showing that suggestion's token and id. |
| HighlightedText.WalkHighlighted | src/components/editor/HighlightedText.tsx:34-39 | The walk's highlighted parts are the marks of the suggestions, one each, in order. |
| HighlightedText.SortDisjoint | src/components/editor/HighlightedText.tsx:23 | Sorting keeps non-overlapping suggestions non-overlapping. |
| HighlightedText.WalkShown | src/components/editor/HighlightedText.tsx:25-50 | For sorted, non-overlapping suggestions that lie where they claim, the walk's parts put together are the text from the cursor on. |
| HighlightedText.PartitionShown | src/components/editor/HighlightedText.tsx:14-50 | For suggestions that lie where they claim and do not overlap, the rendered parts put together give back the text exactly. |
| HighlightedText.FindIndex | src/components/editor/HighlightedText.tsx:56 | `find` by id returns the first entry with that id, or none when no entry has it. |
| HighlightedText.PartStyle | src/components/editor/HighlightedText.tsx:55-64 | A part is unstyled exactly when it is plain or has no id. It is yellow exactly when it is hovered or the first suggestion with its id is checked. Otherwise it is red. |
| SpellCheckStore.Toggled | src/stores/spellCheckStore.ts:41-48 | The tick flips exactly on the entries with the id. The length and every other field are unchanged. |
| SpellCheckStore.WithSelected | src/stores/spellCheckStore.ts:50-55 | Exactly the entries with the id get the candidate as their choice. The length and every other field are unchanged. |
| SpellCheckStore.Checked | src/stores/spellCheckStore.ts:61-64 | The result contains only checked entries of the list, and every checked entry of the list is in it. |
| SpellCheckStore.CheckedAppend | src/stores/spellCheckStore.ts:63 | The filter distributes over concatenation, so checked entries keep list order. |
| SpellCheckStore.CheckedAll | src/stores/spellCheckStore.ts:63 | When every entry is ticked, the filter keeps the whole list. |
| SpellCheckStore.CheckedNone | src/stores/spellCheckStore.ts:63 | The filter keeps nothing exactly when no entry is ticked. |
| SpellCheckStore.ToggleTwice | src/stores/spellCheckStore.ts:41-48 | Toggling the same id twice restores the list. |
| SpellCheckStore.ToggleSelectCommute | src/stores/spellCheckStore.ts:41-55 | Toggling a tick and choosing a candidate commute. |
| SpellCheckStore.Store.constructor | src/stores/spellCheckStore.ts:32-35 | The store starts with the mode off, not loading, no suggestions and nothing hovered. |
| SpellCheckStore.Store.SetSpellCheckMode | src/stores/spellCheckStore.ts:37 | Only the mode changes. |
| SpellCheckStore.Store.SetLoading | src/stores/spellCheckStore.ts:38 | Only the loading flag changes. |
| SpellCheckStore.Store.SetSuggestions | src/stores/spellCheckStore.ts:39 | Only the list changes. |
| SpellCheckStore.Store.ToggleSuggestionCheck | src/stores/spellCheckStore.ts:41-48 | The list becomes its toggled version, and the other fields are kept. |
| SpellCheckStore.Store.SetSelectedSuggestion | src/stores/spellCheckStore.ts:50-55 | The list gets the chosen candidate, and the other fields are kept. |
| SpellCheckStore.Store.SetHoveredSuggestion | src/stores/spellCheckStore.ts:57 | Only the hovered id changes. |
| SpellCheckStore.Store.ClearSuggestions | src/stores/spellCheckStore.ts:59 | The list is empty and nothing is hovered. The mode and the loading flag are kept. |
| SpellCheckStore.Store.GetCheckedSuggestions | src/stores/spellCheckStore.ts:61-64 | The method returns `Checked` of the state's list: the checked entries in list order with their repetitions, every checked entry among them, and none exactly when none is checked. |
| ToastStore.DefaultDuration | src/stores/toastStore.ts:29-31 | Errors get 5000 ms, information 4000 ms and success 3000 ms, which is the minimum. |
| ToastStore.FinalDuration | src/stores/toastStore.ts:32 | A given duration wins, even 0. Only a missing one falls back to the type's default. |
| ToastStore.Without | src/stores/toastStore.ts:47-51 | The result contains only toasts of the list without the id, and every such toast is in it. |
| ToastStore.WithoutAppend | src/stores/toastStore.ts:49 | Removal distributes over concatenation, so survivors keep their order. |
| ToastStore.WithoutAbsent | src/stores/toastStore.ts:49 | Removing an id that no toast carries changes nothing. |
| ToastStore.WithoutTwice | src/stores/toastStore.ts:47-51 | Removing an id twice is removing it once. |
| ToastStore.AddThenRemove | src/stores/toastStore.ts:28-51 | Adding a toast with a fresh id and removing that id gives back the queue. |
| ToastStore.Store.constructor | src/stores/toastStore.ts:26 | The queue starts empty. |
| ToastStore.Store.AddToast | src/stores/toastStore.ts:28-45 | Exactly one toast is appended at the end, with the given type (success by default) and its final duration. |
| ToastStore.Store.RemoveToast | src/stores/toastStore.ts:47-51 | The queue becomes its filter without the id. |
| ToastStore.Store.ClearAllToasts | src/stores/toastStore.ts:53-55 | The queue is empty. |
| ToastStore.Store.ShowSuccess | src/stores/toastStore.ts:57-59 | One success toast is appended. |
| ToastStore.Store.ShowError | src/stores/toastStore.ts:61-63 | One error toast is appended. |
| ToastStore.Store.ShowInfo | src/stores/toastStore.ts:65-67 | One information toast is appended. |
| ShareHistoryUtils.ReadHistory | src/utils/shareHistoryUtils.ts:35-46 | The result is the stored array. It is empty when the key is missing, empty, unparsable or not an array. |
| ShareHistoryUtils.AddToHistory | src/utils/shareHistoryUtils.ts:21-25 | The new entry comes first, followed by as many old entries as fit, in order. The length is between 1 and 50. |
| ShareHistoryUtils.WithoutId | src/utils/shareHistoryUtils.ts:53 | The result contains only entries of the list without the id, and every such entry is in it. |
| ShareHistoryUtils.WithoutIdAppend | src/utils/shareHistoryUtils.ts:53 | Deletion distributes over concatenation, so kept entries keep their order. |
| ShareHistoryUtils.Abbreviate | src/utils/shareHistoryUtils.ts:77-78 | A text of at most 30 characters is kept. A longer one becomes its first 30 characters followed by "...", for 33 in all. |
| ShareHistoryUtils.GenerateShareTitle | src/utils/shareHistoryUtils.ts:74-90 | The title comes from the abbreviated trimmed question if it is not blank, else from the abbreviated trimmed original if that is not blank, else it is "자소서 작업 " and the date. |
| ShareHistoryUtils.TitleLength | src/utils/shareHistoryUtils.ts:75-85 | A title taken from a text has at most 33 characters. |
| ShareHistoryUtils.SaveThenRead | src/utils/shareHistoryUtils.ts:21-27 | Reading after a save finds the new entry first, at most 50 entries, and the older ones in their old order. |
| ShareHistoryUtils.ClearThenRead | src/utils/shareHistoryUtils.ts:60-62 | Reading after clearing finds nothing. |
| ShareHistoryUtils.Storage.GetShareHistory | src/utils/shareHistoryUtils.ts:35-46 | The method returns what is stored under the key when it is an array, and nothing otherwise. |
| ShareHistoryUtils.Storage.SaveShareHistory | src/utils/shareHistoryUtils.ts:12-30 | The entry gets the given id, url and date and the generated title. Only the history key is rewritten, to the capped list with the entry in front. |
| ShareHistoryUtils.Storage.DeleteShareHistory | src/utils/shareHistoryUtils.ts:51-55 | Only the history key is rewritten, to the stored list without that id. |
| ShareHistoryUtils.Storage.ClearShareHistory | src/utils/shareHistoryUtils.ts:60-62 | Only the history key is removed. |
| SpellCheckRoute.Kept | src/app/api/spell-check/route.ts:41-42 | The result holds only findings that are present and have candidates, and every such finding is in it. |
| SpellCheckRoute.KeptAppend | src/app/api/spell-check/route.ts:41-42 | Keeping distributes over concatenation, so results keep the checker's order. |
| SpellCheckRoute.ToResult | src/app/api/spell-check/route.ts:43-51 | Token and candidates are copied, and a missing or empty explanation becomes "". The span is the first occurrence of the token, or 0 up to the token length when the token does not occur. The span is always exactly the token's length. |
| SpellCheckRoute.CollectResults | src/app/api/spell-check/route.ts:40-54 | There is one result per kept finding, in order, each being that finding's result. |
| SpellCheckRoute.Post | src/app/api/spell-check/route.ts:13-57 | The response is a 400 with the "text required" message exactly when the text is missing, empty or not a string. Findings that are not an array give no results. Otherwise the results are the collected ones. |
| SpellCheckRoute.ResultSpans | src/app/api/spell-check/route.ts:49-50 | Every result's span has the token's length and never starts below 0. |
| SpellCheckRoute.ResultFound | src/app/api/spell-check/route.ts:43-50 | When the token occurs in the text, the result's span covers exactly that token. |
| ActivityPage.MinutesBetween | src/app/activity/page.tsx:74 | The result is the floor of the elapsed milliseconds divided by a minute, negative differences included. |
| ActivityPage.Bucket | src/app/activity/page.tsx:76-92 | Under 1 minute gives "just now", under 60 gives minutes, under a day gives hours (1 to 23), under a week gives days (1 to 6), and anything longer gives the date. Each unit is the floor of the minutes. |
| ActivityPage.Label | src/app/activity/page.tsx:76-92 | The oldest bucket shows the locale date. Every other label ends in " 전", and a counted label is the count's decimal digits followed by "분 전", "시간 전" or "일 전". |
| ActivityPage.FormatDate | src/app/activity/page.tsx:71-93 | The shown text is each bucket's label, with the number of whole units. |
| ActivityPage.LabelNumber | src/app/activity/page.tsx:78-85 | A relative label starts with the decimal number of whole units elapsed, which is between 1 and 59. |
| ActivityPage.MinutesMonotonic | src/app/activity/page.tsx:74 | A later "now" never gives fewer elapsed minutes. |
| EditorPage.ReadDigits | src/app/editor/page.tsx:287 | No number is read exactly when the string does not start with a digit of the radix. Otherwise the number is the value of the longest run of leading digits. |
| EditorPage.ReadDigitsRun | src/app/editor/page.tsx:287 | A run of digits followed by the end or by a non-digit reads as the run's value, whatever follows it. |
| EditorPage.ParseInt | src/app/editor/page.tsx:287 | After leading whitespace and one optional sign, a "0x" or "0X" prefix selects base 16 and base 10 is used otherwise. The result is NaN exactly when no digit of that base follows. Otherwise it is the value of the leading digit run, negated after a minus sign. |
| EditorPage.LimitFromInput | src/app/editor/page.tsx:285-288 | The limit is never 0. NaN and 0 fall back to 500, and any other parsed number is taken as is. |
| EditorPage.ParseDecimal | src/app/editor/page.tsx:287 | `parseInt` reads a number's decimal rendering back as that number. |
| EditorPage.LimitFromDecimal | src/app/editor/page.tsx:285-288 | A typed positive number becomes the limit, and "0" gives 500. |
| EditorPage.LimitFromBlank | src/app/editor/page.tsx:285-288 | An empty or all-whitespace field gives 500. |
| EditorPage.NextHeaderVisible | src/app/editor/page.tsx:90-101 | On desktop the header is shown. On mobile, a scroll down past 100 hides it, a scroll up shows it, and anything else leaves it as it was. |
| EditorPage.HiddenOnlyByScrollDown | src/app/editor/page.tsx:90-101 | The header is hidden afterwards only on mobile, and only by a scroll down past 100 or by staying hidden without a scroll up. |
| EditorPage.ShownStats | src/app/editor/page.tsx:374-398 | The panel describes the original text in the original view and the edited text otherwise, with that text's statistics against the limit. |
| EditorPage.Editor.constructor | src/app/editor/page.tsx:40-48 | The page starts with empty texts and share id, the 500 limit, the original view, the header shown and the scroll position at 0. |
| EditorPage.Editor.LoadShared | src/app/editor/page.tsx:53-71 | With a non-empty share id whose payload is stored, the texts are loaded. A missing question becomes "", a missing or zero limit becomes 500, and the view switches to the result. Otherwise nothing changes. |
| EditorPage.Editor.HandleScroll | src/app/editor/page.tsx:87-104 | The header follows the visibility rule, the position is remembered, and nothing else changes. |
| EditorPage.Editor.HandleQuestionLimitInput | src/app/editor/page.tsx:285-288 | Only the limit changes, to what the field's rule gives. |
| EditorPage.Editor.PanelStats | src/app/editor/page.tsx:374-398 | The method returns the statistics of the text the view shows, against the current limit. |

## Left out

- `Diff.diffWords`, the word-level longest-common-subsequence diff, is a library call. Its output, the list of parts, is an input of `DiffViewer`.
- The spell checker (`hanspell`) and the HTTP layer are not modelled: the checker's findings and the request's `text` field are inputs. The endpoint's 500 responses are not modelled either: the one for a checker without `spellCheckByDAUM`, the `hanspellError` catch and the outer catch all depend on the library or on exceptions.
- Local storage is a map from keys to the values that `JSON.parse` would produce. The JSON text itself, the round trip through `JSON.stringify`, and the exception inside `getShareHistory` are collapsed into the `Stored` cases. The elements of a stored array are assumed to be well-formed entries, because the source does not check them.
- The clock, `Math.random`, `Date.now` ids and `toISOString` timestamps are parameters: the toast id, the history id, `createdAt`, and "now" on the activity page.
- The locale formatting `toLocaleDateString`/`toLocaleString` is left out: the formatted date is a parameter. Parsing a date string into milliseconds is left out too, and so is the NaN an invalid date gives.
- `getShareHistoryStats`, `useDeviceStore`, `useSidebarStore`, the hooks and all rendering and styling of components are not modelled. Only the class choice of the highlighted spans is kept, as `Style`.
- Strings are sequences of Unicode code points. JavaScript's `length`, `slice` and `indexOf` count UTF-16 code units, which differs for characters outside the Basic Multilingual Plane.
- `window.scrollY` is an integer here, while the browser may report a fractional value.
- `EditorPage.Editor.LoadShared`: a payload missing `original` or `edited`, or one that fails to parse, is not modelled, because each stored payload has both texts.
- `HighlightedText.SortByStart`: the sort is stable by construction, as `Array.prototype.sort` is, but stability is not stated as a theorem.
- `HighlightedText.PartitionShown` covers only suggestions with non-empty tokens that lie where they claim and do not overlap. Overlapping or misplaced suggestions repeat or skip text, and the model states nothing about them.
- `ShareHistoryUtils.Abbreviate`: an abbreviated title is not unique to its text. A 33-character text ending in "..." is its own abbreviation, so the contract states the two cases and not an equivalence.
- `SpellCheckRoute.CollectResults`: the `processError` catch (src/app/api/spell-check/route.ts:58-61) is not modelled. A finding whose token is null or undefined makes `result.token.length` throw, and the endpoint then answers 200 with no results, dropping those already collected. A token that is some other non-string (a number, say) yields a result whose `end` is NaN or undefined. A `Finding` here always has a string token, so neither path arises.
- `EditorPage.Editor.HandleScroll`: the handler reads `lastScrollY` from the render in which it was registered (src/app/editor/page.tsx:87-107). Several scroll events before a re-render all compare against that stale value. The model updates the position on every event.
- `EditorPage.ParseInt`: integers are unbounded, so a typed number above 2^53, which JavaScript rounds to a nearby double, is read exactly here.
- `ShareHistoryUtils.Storage.SaveShareHistory`, `ShareHistoryUtils.Storage.DeleteShareHistory`: `localStorage.setItem` may throw when the storage quota is exceeded. The model's writes always succeed.
- `shareUrl` and `isCopied` of the editor page belong to the share and copy buttons, which are not modelled.
