# Rich text editor block — a Dafny model

This project models the logic of an Airtable block that edits a record's
`Notes` field as rich text:

- `sanitizeMarkdown`, the pipeline of seven global replace passes that
  repairs the output of the HTML-to-Markdown conversion. The model covers
  the passes' behaviour on `null`, `undefined` and `""`, and the
  trailing-whitespace rule as it is actually written.
- The three places the sanitizer is used: loading the cell into the editor,
  caching an edit, and saving.
- `debounce`, as a state machine over natural-number time. Save goes
  through it with a 500 ms delay.
- The gate that loads the TinyMCE script the first time an editor renders:
  a process-wide flag, plus a loading state for each editor.
- The top-level component's lock and record-selection logic.
- The image picker:
  - sorting attachments by upper-cased file name;
  - the `"<id> <url>"` option values and how the editor splits them again;
  - the preselected first option;
  - confirm and cancel;
  - the `<img>` tag appended to the content.

Modules:

| file | module | what |
|---|---|---|
| js_values.dfy | `JsValues` | `null` / `undefined` / string values, JavaScript truthiness, `Option` |
| strings.dfy | `Strings` | literal global replace (`ReplaceAll`), `split` on one character, and their lemmas |
| regex.dfy | `Regex` | the regular-expression fragment of the trailing rule: a backtracking matcher and global replace |
| sanitizer.dfy | `Sanitizer` | `sanitizeMarkdown`, its passes and what they guarantee |
| debounce.dfy | `Debounce` | `debounce(callback, time)` |
| load_gate.dfy | `LoadGate` | `editorScriptLoaded` and `EditorLoadingState` |
| selection.dfy | `Selection` | the block's state, the cursor, the lock |
| image_picker.dfy | `ImagePicker` | the picker dialog and the option-value codec |
| editor_session.dfy | `EditorSession` | one editor: view choice, load, change, save, image insertion |

Several results follow the code as written:

- Sanitizing is not idempotent. Each pass puts another `- ` in front of a
  task marker (`Sanitizer.SanitizeIsNotIdempotent`).
- The trailing-whitespace rule removes nothing
  (`Sanitizer.TrailingPatternNeverMatches`). The string `'\s+$/'` loses its
  backslash, so the expression is `s+$/`. That expression needs a `/` after
  the end of input, which can never happen.
- The two newline passes have nothing left to do
  (`Sanitizer.NewlinePassesAreRedundant`). Every marker was already listed
  by the unanchored passes.
- Removing `<!-- -->` in a single global pass can put a new `<!-- -->`
  together (`Sanitizer.CommentCanSurviveRemoval`).
- Save is not an immediate write. It hands the update to the 500 ms
  debounce (`EditorSession.SaveWritesAfterDelay`).
- The script may be loaded once per mounted editor, not once per process.
  The flag is shared, but the guard belongs to each editor
  (`LoadGate.TwoEditorsLoadTwice`). An editor can also fall back from
  Initialized to Loaded (`LoadGate.InitializedCanRevert`).
- The selection is unguarded. An empty cursor selection forgets the record
  (`Selection.EmptySelectionForgetsRecord`). A locked editor without a
  record still adopts one (`Selection.LockedEditorAdopts`). The lock does
  not pin the table handed to the editor (`Selection.LockDoesNotPinTable`).

## Model

| member | source | states |
|---|---|---|
| Strings.ReplaceAll | frontend/RichTextEditor.js:121-122 | a literal global replace changes nothing when the pattern does not occur, or when it is replaced by itself; what it does to each occurrence is stated by `Strings.ReplaceAllJoinsPieces` |
| Strings.Pieces | frontend/RichTextEditor.js:121-122 | the stretches a global replace keeps: none of them holds the pattern, and the first is a prefix of the text |
| Strings.NoOccurShort | frontend/RichTextEditor.js:121-122 | a text shorter than the pattern cannot hold it |
| Strings.PiecesHeadThenPattern | frontend/RichTextEditor.js:121-122 | where the scan cuts, the text opens with the first piece followed by the pattern |
| Strings.PiecesLeftmost | frontend/RichTextEditor.js:121-122 | the scan takes the leftmost occurrence: no occurrence starts inside a piece that a cut ends, even one overlapping the occurrence taken |
| Strings.ReplaceAllJoinsPieces | frontend/RichTextEditor.js:121-122 | a literal global replace is the text cut at the occurrences a left-to-right scan takes, joined with the replacement |
| Strings.PiecesJoinToText | frontend/RichTextEditor.js:121-122 | the kept stretches joined with the pattern give the text back |
| Strings.JoinWithLength | frontend/RichTextEditor.js:121-122 | a join is as long as its pieces plus one separator between each two |
| Strings.ReplaceAllLength | frontend/RichTextEditor.js:121-133 | a global replace changes the length by the difference of replacement and pattern once per rewritten occurrence |
| Strings.Split | frontend/RichTextEditor.js:220 | `split` on one character gives at least one piece, no piece holds the separator, and joining the pieces with it gives the input back |
| Strings.SplitHead | frontend/RichTextEditor.js:220-223 | `split` gives a second piece exactly when the separator occurs, the text then opens with the first two pieces joined by it, and without the separator the text is one piece |
| Strings.SplitAround | frontend/RichTextEditor.js:220 | splitting `a + sep + b` gives the pieces of `a` followed by the pieces of `b` |
| Strings.ReplaceAroundMatch | frontend/RichTextEditor.js:121-122 | a global replace rewrites a single occurrence flanked by text that cannot hold a match, and keeps that text |
| Regex.RunLength | frontend/RichTextEditor.js:124 | the greedy `c+` run from an index is maximal: every character in it is `c`, and the next one is not |
| Regex.MatchAt | frontend/RichTextEditor.js:124 | a match found by the backtracking matcher ends within the text, no earlier than it starts |
| Regex.TryRunEnds | frontend/RichTextEditor.js:124 | backtracking over shorter runs ends strictly after the run's start |
| Regex.ReplaceMatches | frontend/RichTextEditor.js:124-125 | a global regex replace whose pattern matches at no index returns the text unchanged, and replacing by the empty string never lengthens it |
| Sanitizer.SanitizeMarkdown | frontend/RichTextEditor.js:114-136 | a falsy argument (`null`, `undefined`, `""`) is returned as it is; a string stays a string; a sanitized string has no `](`, and every `[ ]` and `[x]` in it, wherever it stands, has `- ` right before it |
| Sanitizer.SanitizeText | frontend/RichTextEditor.js:119-135 | after the seven passes no `](` is left, every `[ ]` and every `[x]` anywhere in the text has `- ` right before it, and none is bare at a line start |
| Sanitizer.RemoveComments | frontend/RichTextEditor.js:121-122 | the comment pass cuts out each `<!-- -->` a left-to-right scan finds, shortening the text by 8 per comment, and leaves text without one unchanged |
| Sanitizer.StripTrailing | frontend/RichTextEditor.js:124-125 | the trailing-whitespace pass returns its input unchanged |
| Sanitizer.TrailingPatternNeverMatches | frontend/RichTextEditor.js:124 | `s+$/` matches at no index of any text |
| Sanitizer.AnchorThenSlashFails | frontend/RichTextEditor.js:124 | however the backtracking matcher ends the `s+` run, `$/` fails after it |
| Sanitizer.TrailingPassIsIdentity | frontend/RichTextEditor.js:124-125 | the global replace with `s+$/` is the identity |
| Sanitizer.SpaceLinks | frontend/RichTextEditor.js:127-128 | the link pass puts a space between each `]` and the `(` right after it and changes nothing else, so it grows the text by one per `](` and leaves none |
| Sanitizer.ListedMarkers | frontend/RichTextEditor.js:130-131 | the position-by-position reading of a marker pass never shortens the text and writes `-` first where a marker starts |
| Sanitizer.SpaceLinksMatchesReference | frontend/RichTextEditor.js:127-128 | the global replace of `](` by `] (` equals inserting a space after every `]` followed by `(` |
| Sanitizer.ListingMatchesReference | frontend/RichTextEditor.js:130-131 | the global replace of `[c]` by `- [c]` equals writing `- ` before every index where `[c]` starts |
| Sanitizer.MarkerIsPrefix | frontend/RichTextEditor.js:130-131 | `[c]` opens a text exactly when a marker starts at its index 0 |
| Sanitizer.ListedAtMarker | frontend/RichTextEditor.js:130-131 | at a marker the pass writes the whole list item `- [c]` and goes on after the marker |
| Sanitizer.OpeningKept | frontend/RichTextEditor.js:130-131 | output of a marker pass that opens with `d]` comes from input that opens with `d]` and no marker |
| Sanitizer.MarkersListedFrom | frontend/RichTextEditor.js:130-131 | after a marker pass every `[c]` in its output, whatever text precedes it, has `- ` right before it |
| Sanitizer.ListingListsAll | frontend/RichTextEditor.js:130-131 | after the `[c]` pass every `[c]` of the text has `- ` right before it |
| Sanitizer.AcrossStep | frontend/RichTextEditor.js:130-131 | what a marker pass may rely on from the text before carries over one character further |
| Sanitizer.HeadListed | frontend/RichTextEditor.js:130-131 | a `[d]` that starts in what the pass writes for the first character is listed |
| Sanitizer.ListingKeepsListed | frontend/RichTextEditor.js:130-131 | the `[c]` pass keeps every `[d]` listed that was listed, or about to be completed by the text before |
| Sanitizer.ListTasksKeepsListed | frontend/RichTextEditor.js:130-131 | the `[x]` pass keeps every `[ ]` listed when every one was |
| Sanitizer.SpaceLinksLeavesNoJoin | frontend/RichTextEditor.js:127-128 | replacing `](` by `] (` everywhere leaves no `](` |
| Sanitizer.ListTasks | frontend/RichTextEditor.js:130-131 | a marker pass writes `- ` before every index where the marker starts and changes nothing else, so it grows the text by 2 per marker; every marker of the result has `- ` before it, none is bare at the start or after a newline, and no `](` is created |
| Sanitizer.ListingLeavesNoBareMarker | frontend/RichTextEditor.js:130-131 | rewriting every `[c]` to `- [c]` leaves none at the start or after a newline |
| Sanitizer.ListingKeepsNoJoin | frontend/RichTextEditor.js:128-131 | a marker pass on text without `](` creates none |
| Sanitizer.ListingKeepsOtherMarkersListed | frontend/RichTextEditor.js:130-131 | the `[x]` pass keeps the `[ ]` markers listed that the earlier pass listed |
| Sanitizer.ListingKeepsNoLineStartMarker | frontend/RichTextEditor.js:130-131 | a marker pass creates no line-start occurrence of either marker |
| Sanitizer.ListTasksAfterNewline | frontend/RichTextEditor.js:132-133 | a newline pass changes nothing when no marker follows a newline |
| Sanitizer.NewlinePassesAreRedundant | frontend/RichTextEditor.js:130-133 | the whole pipeline equals the first five passes: the two newline passes never change anything |
| Sanitizer.SanitizeListsMarker | frontend/RichTextEditor.js:114-136 | text without `[`, `<` or `(` that ends in `[ ]` comes back with that marker listed as `- [ ]` |
| Sanitizer.SanitizeIsNotIdempotent | frontend/RichTextEditor.js:130 | sanitizing `p[ ]` twice gives `p- - [ ]`, which differs from sanitizing once (`p- [ ]`) |
| Sanitizer.PlainHasNoPatterns | frontend/RichTextEditor.js:121-133 | text without brackets, parentheses or `<` contains none of the patterns |
| Sanitizer.ListingOpenTaskLine | frontend/RichTextEditor.js:130 | on `[x]a\n[ ]b` the open pass lists only the `[ ]` |
| Sanitizer.ListingDoneTaskLine | frontend/RichTextEditor.js:131 | on `[x]a\n- [ ]b` the done pass lists the `[x]` and keeps the rest |
| Sanitizer.TaskLinesAreListed | frontend/RichTextEditor.js:119-135 | a done line followed by an open line comes out as two list items |
| Sanitizer.TaskListExample | frontend/RichTextEditor.js:114-136 | `"[x] done\n[ ] todo"` sanitizes to `"- [x] done\n- [ ] todo"` |
| Sanitizer.SpacingImageLink | frontend/RichTextEditor.js:127-128 | `![alt](url)` becomes `![alt] (url)` in the link pass |
| Sanitizer.LinkTextIsNotMarker | frontend/RichTextEditor.js:130-131 | a link text `[alt]` is a task marker only when `alt` is the task character |
| Sanitizer.ListingSkipsLinkText | frontend/RichTextEditor.js:130-131 | a marker pass leaves a link text that is not a marker alone |
| Sanitizer.ListingSkipsSpacedLink | frontend/RichTextEditor.js:130-131 | a marker pass leaves a spaced image link alone |
| Sanitizer.ImageLinkIsSpaced | frontend/RichTextEditor.js:119-135 | the whole pipeline turns `![alt](url)` into `![alt] (url)` and makes no other change |
| Sanitizer.ImageLinkExample | frontend/RichTextEditor.js:114-136 | `![alt](http://x/y.png)` sanitizes to `![alt] (http://x/y.png)` |
| Sanitizer.LinkAndTaskPassesKeep | frontend/RichTextEditor.js:127-131 | text without `(` or `[` passes the link and marker passes unchanged |
| Sanitizer.PlainTextIsKept | frontend/RichTextEditor.js:119-135 | text without `<`, `(` or `[` is returned unchanged |
| Sanitizer.RemovalAssemblesComment | frontend/RichTextEditor.js:121-122 | removing `<!-- -->` from `<!-<!-- -->- -->` leaves `<!-- -->` |
| Sanitizer.CommentCanSurviveRemoval | frontend/RichTextEditor.js:114-136 | a sanitized text can still contain `<!-- -->` |
| Sanitizer.SanitizeAfterRemoval | frontend/RichTextEditor.js:114-136 | when removing the comments leaves no `(` and no `[`, sanitizing gives exactly that text |
| Debounce.New | frontend/RichTextEditor.js:145-146 | a new debounced function has the given delay and nothing scheduled |
| Debounce.Call | frontend/RichTextEditor.js:147-153 | a call replaces any scheduled timeout with one carrying its arguments and due `time` later |
| Debounce.Tick | frontend/RichTextEditor.js:149-152 | the callback runs exactly when a timeout is scheduled and due; it gets that timeout's arguments and leaves nothing scheduled; otherwise nothing changes |
| Debounce.Run | frontend/RichTextEditor.js:145-154 | the callback runs at most once per call, plus once for a timeout already scheduled |
| Debounce.CallPostpones | frontend/RichTextEditor.js:148-149 | a new call cancels a timeout that was due: a tick that would have fired no longer does |
| Debounce.FiredArgsWereCalled | frontend/RichTextEditor.js:147-152 | every callback run passes the arguments of some call, or of the timeout already scheduled |
| Debounce.CallsOnlyKeepLast | frontend/RichTextEditor.js:147-153 | calls alone run nothing and leave the last call scheduled |
| Debounce.EarlyTicksDoNothing | frontend/RichTextEditor.js:149-152 | ticks before the deadline change nothing |
| Debounce.BurstFiresOnce | frontend/RichTextEditor.js:145-154 | a burst of calls followed by ticks runs the callback exactly once, with the last call's arguments, at the first tick past the last deadline |
| Debounce.RunSplits | frontend/RichTextEditor.js:145-154 | running two stretches of events one after the other equals running them together |
| Debounce.BurstExample | frontend/RichTextEditor.js:138-154 | calls at 0, 100, 200 and 300 ms with a 500 ms delay fire once, at 800 ms, with the last arguments |
| LoadGate.InitialState | frontend/RichTextEditor.js:73-78 | a new editor starts Loaded exactly when the flag is set, and NotLoaded exactly when it is not |
| LoadGate.RenderStep | frontend/RichTextEditor.js:81-87 | a render issues one load exactly when its editor is NotLoaded, and touches no other editor |
| LoadGate.FlagView | frontend/RichTextEditor.js:196-198 | the spinner is drawn exactly while the script has not loaded, the editor exactly after |
| LoadGate.ViewOf | frontend/RichTextEditor.js:196-198 | every editor draws the spinner exactly while the process-wide flag is false |
| LoadGate.RemoveAt | frontend/RichTextEditor.js:83-86 | a completed load is taken out of those in flight: one entry fewer, and putting it back at its place gives the list as it was |
| LoadGate.RemoveAtMultiset | frontend/RichTextEditor.js:83-86 | exactly one entry, the completed load's, leaves the loads in flight |
| LoadGate.Step | frontend/RichTextEditor.js:40-92 | the flag never goes back to false, editors are never unmounted, and an event issues at most one load |
| LoadGate.Run | frontend/RichTextEditor.js:40-92 | over any run the flag never goes back to false |
| LoadGate.StepPreservesInv | frontend/RichTextEditor.js:73-92 | every event keeps the invariant: each editor issues at most one load, Loaded and Initialized editors imply the flag, the load count is the sum over editors |
| LoadGate.RunPreservesInv | frontend/RichTextEditor.js:73-92 | every run keeps that invariant |
| LoadGate.AtMostOneLoadPerEditor | frontend/RichTextEditor.js:73-87 | from the start, each editor issues at most one load, so there are never more loads than editors |
| LoadGate.LoadOnlyFromNotLoaded | frontend/RichTextEditor.js:81-82 | a render issues a load exactly when its editor was NotLoaded, and the editor leaves NotLoaded at once |
| LoadGate.SpinnerFollowsFlag | frontend/RichTextEditor.js:196-198 | the spinner shows exactly while the flag is false, the same for every editor |
| LoadGate.LoadedFlagStopsLoads | frontend/RichTextEditor.js:74-76 | once the flag is set no further load is issued |
| LoadGate.TwoEditorsLoadTwice | frontend/RichTextEditor.js:40-87 | two editors mounted before any load completes issue two loads |
| LoadGate.InitializedCanRevert | frontend/RichTextEditor.js:83-90 | an Initialized editor goes back to Loaded when its own late load completes |
| LoadGate.RunSplits | frontend/RichTextEditor.js:40-92 | running two stretches of events one after the other equals running them together |
| Selection.FirstId | frontend/index.js:22 | `ids[0]` is `undefined` exactly for an empty selection, and otherwise the first id |
| Selection.OnRecordSelected | frontend/index.js:20-30 | when locked nothing changes; otherwise the cursor's table and first record are stored, `undefined` for an empty selection |
| Selection.OnLockChanged | frontend/index.js:32-34 | only the lock changes |
| Selection.AdoptOnRender | frontend/index.js:42-44 | with a falsy record and a non-empty selection the first selected record is adopted, locked or not; otherwise nothing changes |
| Selection.Props | frontend/index.js:40-53 | the editor gets the live cursor's table with the stored record and lock |
| Selection.Step | frontend/index.js:20-44 | a cursor move records the new cursor; a lock change sets the lock and keeps the cursor |
| Selection.LockedStateIsKept | frontend/index.js:24-26 | a locked editor with a record keeps its whole state through any cursor moves |
| Selection.LockDoesNotPinTable | frontend/index.js:40-53 | a locked editor keeps its record but is handed the table of the new cursor |
| Selection.EmptySelectionForgetsRecord | frontend/index.js:20-30 | unlocked, a move to an empty selection hands the editor an `undefined` record |
| Selection.LockedEditorAdopts | frontend/index.js:42-44 | a locked editor without a record adopts the cursor's first record and keeps its stored table |
| Selection.StoredTableNeverRead | frontend/index.js:16-53 | the stored table id never reaches the editor: states that differ only in it give the same props after any events |
| ImagePicker.UpperChar | frontend/ImagePicker.js:16-17 | upper-casing maps `a`-`z` to `A`-`Z`, leaves other characters alone, and leaves no lower-case letter |
| ImagePicker.Upper | frontend/ImagePicker.js:16-17 | upper-casing a name keeps its length and works character by character |
| ImagePicker.LessIrreflexive | frontend/ImagePicker.js:20-22 | no string is less than itself |
| ImagePicker.LessTrichotomy | frontend/ImagePicker.js:20-22 | of two different strings exactly one is less than the other |
| ImagePicker.LessTransitive | frontend/ImagePicker.js:20-22 | string `<` is transitive |
| ImagePicker.BeforeTotal | frontend/ImagePicker.js:15-26 | any two files can be ordered |
| ImagePicker.BeforeTransitive | frontend/ImagePicker.js:15-26 | the file order is transitive |
| ImagePicker.SortImages | frontend/ImagePicker.js:15-26 | the comparator returns -1, 0 or 1; it is 1 exactly when `a`'s upper-cased name is greater, and 0 only for equal upper-cased names |
| ImagePicker.SortImagesAntisymmetric | frontend/ImagePicker.js:15-26 | swapping the arguments negates the result, which is 0 exactly for equal upper-cased names |
| ImagePicker.CaseIsIgnored | frontend/ImagePicker.js:16-17 | names that differ only in letter case compare equal |
| ImagePicker.ConsSorted | frontend/ImagePicker.js:34 | a file before every file of a sorted list can head it |
| ImagePicker.BeforeHead | frontend/ImagePicker.js:34 | a file before the head of a sorted list is before all of it |
| ImagePicker.HeadBeforeRest | frontend/ImagePicker.js:34 | the head of a sorted list comes before every file of any rearrangement of its tail plus a later file |
| ImagePicker.Insert | frontend/ImagePicker.js:34 | inserting into a sorted list keeps it sorted and adds exactly that file |
| ImagePicker.SortFiles | frontend/ImagePicker.js:33-34 | the sorted files are in comparator order, are as many as in the cell and a rearrangement of the cell's files, and keep files with equal upper-cased names in their order in the cell |
| ImagePicker.KeyFilterAppend | frontend/ImagePicker.js:33-34 | filtering by key a list with one more file at its end adds that file at the end when its key matches |
| ImagePicker.KeyFilterNone | frontend/ImagePicker.js:33-34 | a list without a file of a key filters to nothing |
| ImagePicker.InsertStable | frontend/ImagePicker.js:33-34 | inserting a file puts it after every file of equal key already in the sorted list |
| ImagePicker.NoTieAfterSmaller | frontend/ImagePicker.js:33-34 | a file whose key is below the head of a sorted list ties with none of its files |
| ImagePicker.InsertAtHeadStable | frontend/ImagePicker.js:33-34 | inserting before the head keeps each key's files in order |
| ImagePicker.InsertPastHeadStable | frontend/ImagePicker.js:33-34 | inserting past the head keeps each key's files in order when inserting into the tail does |
| ImagePicker.KeyFilterConsStep | frontend/ImagePicker.js:33-34 | putting the same file in front of two lists keeps what their key filters differ by |
| ImagePicker.InsertStepStable | frontend/ImagePicker.js:33-34 | one insertion step keeps the files of each key in cell order |
| ImagePicker.FirstOfKey | frontend/ImagePicker.js:33-34 | the first file a key filter keeps is the first file of the list with that key |
| ImagePicker.Encode | frontend/ImagePicker.js:29 | an option value is the id, then one space, then the url, each recoverable by position |
| ImagePicker.MapImage | frontend/ImagePicker.js:28-31 | an option's caption is the file name and its value encodes the id and url |
| ImagePicker.MapImages | frontend/ImagePicker.js:35 | mapping keeps the length and maps each file in place |
| ImagePicker.MapImagesConcat | frontend/ImagePicker.js:35 | mapping distributes over concatenation |
| ImagePicker.MultisetWithout | frontend/ImagePicker.js:33-35 | taking one element out of a list takes it out of the list's multiset |
| ImagePicker.MultisetCancel | frontend/ImagePicker.js:33-35 | equal multisets stay equal once the same element is taken out of both |
| ImagePicker.MapImagesMiddle | frontend/ImagePicker.js:35 | mapping a list with one file taken out, then counting that file's option back in, gives the multiset of the whole mapped list |
| ImagePicker.MapImagesMultiset | frontend/ImagePicker.js:33-35 | mapping a rearrangement gives a rearrangement of the options |
| ImagePicker.Files | frontend/ImagePicker.js:13 | an empty cell reads as no files, and a filled one as its files |
| ImagePicker.ImageOptions | frontend/ImagePicker.js:13-35 | there is one option per file in the cell (none for an empty cell), with captions in case-insensitive order |
| ImagePicker.OptionsArePermutation | frontend/ImagePicker.js:13-35 | the options are exactly the files' options, each once, whatever their order in the cell |
| ImagePicker.InitialSelection | frontend/ImagePicker.js:37 | the preselection is `null` exactly when there are no options, and otherwise the first option's value |
| ImagePicker.InitialSelectionIsFirstFile | frontend/ImagePicker.js:33-37 | the preselected value encodes the file with the smallest upper-cased name, and among files that tie, the first in the cell |
| ImagePicker.Open | frontend/ImagePicker.js:13-38 | the dialog opens with the sorted options and the first one preselected |
| ImagePicker.Choose | frontend/ImagePicker.js:48 | a change in the select box replaces the selection and keeps the options |
| ImagePicker.Confirm | frontend/ImagePicker.js:52 | confirming hands back the current selection as it is, possibly `null` |
| ImagePicker.Cancel | frontend/ImagePicker.js:53 | cancelling hands back nothing |
| ImagePicker.Decode | frontend/RichTextEditor.js:220-224 | splitting a value on a space gives an id and a url with no space in them; the url is a string exactly when the value has a space, and then the value opens with id, space, url; without a space the value is all id with an `undefined` url |
| ImagePicker.TokenRoundTrip | frontend/RichTextEditor.js:220-224 | splitting an option value gives back the file's id and url exactly when neither contains a space |
| ImagePicker.UrlWithSpaceIsTruncated | frontend/RichTextEditor.js:220-224 | a url that contains a space comes back cut at its first space |
| EditorSession.View | frontend/RichTextEditor.js:50-62 | "Pick a record" shows exactly when the table or record is falsy; the spinner shows exactly when both are set and the script has not loaded, the editor exactly when it has |
| EditorSession.Mount | frontend/RichTextEditor.js:70-164 | a new editor has nothing cached, the picker closed, no write scheduled, and the HTML of the loaded notes as its content |
| EditorSession.LoadedNotes | frontend/RichTextEditor.js:156-162 | a falsy cell shows the placeholder, and any other cell shows its sanitized text |
| EditorSession.InitialHtml | frontend/RichTextEditor.js:156-164 | the editor's HTML is the conversion of the placeholder for a falsy cell, and of the sanitized cell otherwise |
| EditorSession.PlaceholderIsKept | frontend/RichTextEditor.js:158-162 | the sanitizer leaves the placeholder unchanged |
| EditorSession.MarkdownOf | frontend/RichTextEditor.js:96-97 | the converted and sanitized markdown is always a string, empty for empty conversion output, and otherwise free of `](` with every line-start task marker listed |
| EditorSession.OnEditorChange | frontend/RichTextEditor.js:94-100 | an edit caches the sanitized markdown and leaves the writer and picker alone |
| EditorSession.OnSave | frontend/RichTextEditor.js:102-112 | Save schedules the write of `{Notes: sanitized content}` 500 ms later and changes nothing else |
| EditorSession.OnTick | frontend/RichTextEditor.js:138-140 | the clock makes the writer write exactly what the debounce fires |
| EditorSession.SaveWritesAfterDelay | frontend/RichTextEditor.js:102-154 | after Save nothing is written before 500 ms; after that, the content as it was at Save is written, whatever number of edits followed |
| EditorSession.EditsNeverWrite | frontend/RichTextEditor.js:94-100 | any number of edits leaves the writer as it was |
| EditorSession.ImgTag | frontend/RichTextEditor.js:225 | the tag is `<img src="`, the url, then `" width="900">` |
| EditorSession.ImgTagInjective | frontend/RichTextEditor.js:225 | different urls give different tags |
| EditorSession.OpenImagePicker | frontend/RichTextEditor.js:169-176 | the image button opens the picker and changes nothing else |
| EditorSession.OnImageConfirmed | frontend/RichTextEditor.js:217-229 | the picker closes; a `null` or `undefined` selection throws; otherwise the content gains exactly the `<img>` tag of the url resolved from the split value, at its end, and the cache and writer are untouched |
| EditorSession.ConfirmChosenAppendsItsTag | frontend/RichTextEditor.js:217-229 | choosing any option of the picker and confirming appends the `<img>` tag of the file at that place in sort order, resolved from its id and url |
| EditorSession.OnImageCanceled | frontend/RichTextEditor.js:231-233 | cancel only closes the picker |
| EditorSession.CancelUndoesOpen | frontend/RichTextEditor.js:169-176 | opening the picker then cancelling gives back the session as it was |
| EditorSession.ConfirmFirstFileAppendsItsTag | frontend/RichTextEditor.js:217-229 | confirming the preselected option appends the `<img>` tag of a file with the smallest upper-cased name in the cell, resolved from that file's id and url |
| EditorSession.ConfirmWithoutFilesThrows | frontend/RichTextEditor.js:217-220 | confirming on a record without files throws, because the selection is `null` |

## Left out

- showdown's `makeHtml` and `makeMarkdown` are parameters (`EditorSession.Converter`). Their conversions are not modelled.
- TinyMCE, the toolbar and plugin configuration, the CSS and all rendering are left out. Only what each view draws is kept (`EditorSession.Screen`, `LoadGate.View`).
- Network I/O and promises are left out. `loadScriptFromURLAsync` is a `Complete` event of the load gate. `updateRecordAsync` is the `Update` the debounced writer fires.
- The Airtable SDK is left out. The cursor and the cell values are inputs. `getAttachmentClientUrlFromCellValueUrl` is the `resolve` parameter.
- `setTimeout` and `clearTimeout` are replaced by natural-number time and explicit `TickAt` events. Real timers and concurrent callbacks are not modelled.
- EditorSession.OnSave: the source re-creates `handleNoteUpdated` on every render. Each render therefore gets a fresh debounce with nothing scheduled. The model keeps one debouncer for each mounted editor. This covers a save followed by no re-render, which holds as long as nothing re-renders the component before the write.
- ImagePicker.SortImages: strings are compared by Unicode code point, while JavaScript's `<` compares UTF-16 code units. The two orders differ for characters outside the Basic Multilingual Plane: a name starting with U+1F600 sorts before one starting with U+FF5A in JavaScript (surrogate 0xD83D < 0xFF5A), but after it in the model.
- ImagePicker.UpperChar: `toUpperCase` is modelled for ASCII letters only. Full Unicode case mapping, including characters whose upper case is longer, is left out.
- ImagePicker.SortFiles: the model is an insertion sort. ECMAScript 2019 and later require `Array.prototype.sort` to be stable, and the model proves that stability. The engine's own algorithm is not modelled.
- React re-rendering and unmounting are left out. The selection and load-gate models run each event together with the render it causes.
- `editor.setContent` fires a change event in TinyMCE. That event is not modelled, so `EditorSession.OnImageConfirmed` does not update the cached markdown.
- EditorSession.OnImageConfirmed: the source closes the picker before `split` throws. The model's `TypeError` outcome carries the session with the picker closed, and the throw's propagation is not modelled further.
- `sanitize` (commented out in the source), the lock switch's rendering, and `LoadingSpinner`'s layout are not part of this model.
