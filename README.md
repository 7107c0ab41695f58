# chat-cop chat-line engine in Dafny

chat-cop follows a game's chat log file and shows the chat lines that match
the user's filters. This project models the engine behind that, and proves
properties of the model:

- **Line classifier** (`ChatLine`, chat_line.dfy). This is the static
  `Monitor.getInfo` with its channel table `Monitor.CHANNELS`.
  - A line's channel is the first key of the table, in the order GLOBAL,
    TRADE, WHISPER, LOCAL, whose marker occurs anywhere in the line.
  - `info.line` is `line.split(marker)[1]`.
  - The username is the text before the first `:`. It is not trimmed.
  - The message is the remaining `:`-separated parts joined with `''` and
    then trimmed. So every `:` after the first is dropped.
  - A line with no marker throws. This is modelled as the `Failure` result
    `ChannelLineUndefined`.
  - `ParseLine` is the function that specifies the classifier. `GetInfo` is
    the method with the source's search loop, which breaks at the first hit.
    `GetInfo` is proved equal to `ParseLine`.
- **Filter registry and dispatch** (`ChatMonitor`, monitor.dfy). This is
  class `Monitor`, modelled as a Dafny class with three fields:
  - `filters`: the insertion-ordered set of `{raw, exp}` entries, as a
    `seq<Filter>`.
  - `events`: one callback slot per event name, as a `map`.
  - `log`: every callback call made so far.

  Its methods are `On`, `Fire`, `AddFilter`, `RemoveFilter` and
  `ProcessData`. `ProcessData` is split into `DispatchLine` (the `forEach`
  over the filters) and `FireMatch` (the body of that loop for an entry that
  matches). Each method is proved against a specification function: `Removed`
  for `removeFilter`, and the runs `LineRun` and `DataRun` for
  `processData`. A run is the list of callback calls made, plus the exception
  that stopped them, if any. `Raws` is the list of raw patterns that the
  Electron main process saves after every add and every remove.
- **Renderer helpers** (`Renderer`, renderer.dfy).
  - `app.normalizeFilter`, which replaces each maximal run of characters that
    are not ASCII letters by one `-`.
  - The username and clipboard text of the copy-whisper button.
- **JavaScript string built-ins** (`JsStrings`, js_strings.dfy). These are
  `indexOf`, `split`, `join` and `trim` for non-empty separators, with the
  facts about them that the lemmas above use.

The regular-expression engine is a parameter of the class. `matches(raw,
line)` stands for `new RegExp(raw, 'i').test(line)`, and `compiles(raw)`
says whether `new RegExp` accepts the pattern. The expressions carry no `g`
flag, so `test` keeps no scan position. That is why an entry is its `raw`
alone, and why the `lastIndex = 0` reset at src/main/monitor.js:49 changes
nothing.

Three details of the code shape the properties below:
- `addFilter` always adds a new object to the `Set`. Adding a pattern twice
  therefore stores two entries, and each of them delivers the line
  (`MatchingCountsEntries`, `DeliveriesFollowPatterns`).
- The username is not trimmed.
- Every `:` after the first is removed from the message, not kept.

## Model

| member | source | states |
|---|---|---|
| ChatLine.Rank | src/main/monitor.js:83-88 | The position of each channel in the key order GLOBAL, TRADE, WHISPER, LOCAL of the channel table. |
| ChatLine.Marker | src/main/monitor.js:83-88 | The marker of each channel key. No contract of its own; `MarkerImpliesLocalMarker` states that every marker begins with `"] "`. |
| ChatLine.DateText | src/main/monitor.js:55-62 | The text handed to `new Date`: the first two space-separated fragments of the line, joined by one space, with "undefined" for a missing second fragment. No contract of its own. |
| ChatLine.FirstChannelFrom | src/main/monitor.js:64-72 | The search loop of `getInfo` from its `k`-th iteration on: a channel it answers comes at or after key `k` and its marker occurs in the line. `FirstChannelFromFindsFirst` states that it is the first such key, and none only when there is none. |
| ChatLine.FirstChannelFromFindsFirst | src/main/monitor.js:64-72 | The search from key `k` on answers the first key whose marker occurs in the line. It answers none exactly when no marker from `k` on occurs. |
| ChatLine.ParseLine | src/main/monitor.js:54-80 | A successful parse has a channel whose marker occurs in the line. |
| ChatLine.ParseLineTakesFirstListedChannel | src/main/monitor.js:64-74 | `getInfo` fails exactly when no marker of the table occurs. Otherwise no channel listed before the chosen one has its marker in the line. |
| ChatLine.GetInfo | src/main/monitor.js:54-80 | The method with the search loop and `break` returns exactly what `ParseLine` specifies, including the failure for a line with no marker. |
| ChatLine.Username | src/main/monitor.js:74-76 | `fragments[0]` of `info.line.split(':')`. Described by `UsernameIsTextBeforeFirstColon`. |
| ChatLine.Message | src/main/monitor.js:74-77 | `fragments.slice(1).join('').trim()`. Described by `MessageIsRestWithoutColons` and `JoinedIsRestAfterColonWithoutColons`. |
| ChatLine.MarkerImpliesLocalMarker | src/main/monitor.js:83-88 | A line holding any of the four markers holds `"] "`. |
| ChatLine.ParseFailsIffNoLocalMarker | src/main/monitor.js:64-74 | `getInfo` fails if and only if the line holds no `"] "`. |
| ChatLine.LocalIffOnlyGenericMarker | src/main/monitor.js:64-72 | A line is LOCAL if and only if it holds `"] "` and none of `"] #"`, `"] $"` and `"] @"`. |
| ChatLine.GlobalMarkerAnywhereWins | src/main/monitor.js:64-72 | A line holding `"] #"` anywhere is GLOBAL, whatever markers come earlier in it. |
| ChatLine.InfoLineLiesBetweenMarkers | src/main/monitor.js:69 | `info.line` is the text strictly after the first occurrence of the chosen marker, up to its next occurrence or the end of the line. |
| ChatLine.UsernameIsTextBeforeFirstColon | src/main/monitor.js:74-76 | The username is the untrimmed prefix of `info.line` before its first `:` and holds no `:`. Without a `:` it is all of `info.line`, and the message is empty. |
| ChatLine.MessageIsRestWithoutColons | src/main/monitor.js:74-77 | The message holds no `:` and neither starts nor ends with whitespace. It is the trimmed text after the first `:` with every `:` deleted. |
| ChatLine.JoinedIsRestAfterColonWithoutColons | src/main/monitor.js:77 | The parts after the first `:`, joined with `''`, are the text after that `:` with every `:` deleted, or nothing when there is no `:`. |
| JsStrings.IndexOf | src/main/monitor.js:67 | `indexOf`, with None for -1. A found index leaves room for the pattern; `IndexOfFindsFirst` states that it is the first occurrence. |
| JsStrings.Split | src/main/monitor.js:69 | `split` for a non-empty separator gives at least one piece. Described by `SplitIsSingleIffAbsent`, `SplitPiecesAreFree`, `JoinSplit`, `FirstPiece` and `SecondPiece`. |
| JsStrings.Join | src/main/monitor.js:69 | `join(sep)`, the inverse of `split(sep)` by `JoinSplit`. No contract of its own. |
| JsStrings.Concat | src/main/monitor.js:77 | `join('')`. Described by `ConcatSplitRemovesChar`. No contract of its own. |
| JsStrings.Trim | src/main/monitor.js:77 | `trim`. Described by `TrimStripsBothEnds` and `TrimAddsNothing`. No contract of its own. |
| JsStrings.Contains | src/main/monitor.js:38 | The test `indexOf(pat) > -1`, also used at src/main/monitor.js:67 and src/renderer/main.js:253. No contract of its own; `IndexOfFindsFirst` states that it holds exactly when the pattern occurs somewhere. |
| JsStrings.IsWhitespace | src/main/monitor.js:77 | The characters `trim` strips: ECMAScript's WhiteSpace and LineTerminator characters. No contract of its own; used by `TrimStripsBothEnds`. |
| JsStrings.IndexOfFindsFirst | src/main/monitor.js:67 | `indexOf` gives an index where the pattern occurs with no earlier occurrence, or -1 (None) only when it occurs nowhere. |
| JsStrings.SplitIsSingleIffAbsent | src/main/monitor.js:38-39 | `split` gives a single piece if and only if the separator does not occur, which is the test `processData` makes before splitting. |
| JsStrings.SplitPiecesAreFree | src/main/monitor.js:39 | No piece of `split(sep)` contains `sep`. |
| JsStrings.JoinSplit | src/main/monitor.js:69 | `split(sep)` loses nothing: joining its pieces with `sep` gives the string back. |
| JsStrings.SecondPiece | src/main/monitor.js:69 | A string holding `sep` splits into at least two pieces. Piece 1 lies between the first occurrence of `sep` and the next one or the end. |
| JsStrings.PieceAtIsUnique | src/main/monitor.js:69 | The piece that starts at a given index and runs to the next occurrence of the separator (one starting inside the piece counts, even if it overlaps the piece's end) or to the end is unique. So `SecondPiece` fixes `split(sep)[1]` for every separator, overlapping ones included. |
| JsStrings.FirstPiece | src/main/monitor.js:76 | Piece 0 of `split(sep)` is the text before the first occurrence, or the whole string. |
| JsStrings.ConcatSplitRemovesChar | src/main/monitor.js:77 | Splitting on one character and joining with `''` deletes exactly that character. |
| JsStrings.RemoveCharDeletesOnlyC | src/main/monitor.js:77 | Deleting a character leaves none of it, and keeps every other character as often as before. |
| JsStrings.TrimStartDropsLeadingWhitespace | src/main/monitor.js:77 | The leading strip drops only whitespace, and what remains is empty or starts with non-whitespace. |
| JsStrings.TrimEndDropsTrailingWhitespace | src/main/monitor.js:77 | The trailing strip drops only whitespace, and what remains is empty or ends with non-whitespace. |
| JsStrings.TrimStripsBothEnds | src/main/monitor.js:77 | `trim` returns a slice of its input that is empty or starts and ends with non-whitespace, and everything cut off is whitespace. |
| JsStrings.TrimAddsNothing | src/main/monitor.js:77 | A character absent from the input is absent from its `trim`. |
| ChatMonitor.Raws | src/main/index.js:84 | The saved list of patterns has one entry per filter, in set order, each entry being that filter's `raw`. |
| ChatMonitor.RawsAfterAdd | src/main/index.js:83-84 | After `addFilter(p)` the saved list is the old list with `p` at the end. |
| ChatMonitor.Removed | src/main/monitor.js:29-35 | The set after `removeFilter(p)`. Described by `RemovedDropsExactlyPattern`, `RemovedAppend`, `RemoveAbsentIsNoOp`, `RemoveIsIdempotent` and `AddThenRemove`. |
| ChatMonitor.FireRun | src/main/monitor.js:44-47 | One matching entry: the `getInfo` exception, or one `line` delivery, or the exception of a missing `line` callback. No contract of its own; `Monitor.FireMatch` is proved against it. |
| ChatMonitor.EntryRun | src/main/monitor.js:43-50 | What one entry does to a line: `FireRun` when its expression matches, otherwise nothing. No contract of its own. |
| ChatMonitor.LineRun | src/main/monitor.js:42-51 | The `forEach` over the entries, stopping at the first exception. Described by `LineRunIsOutcome`, `LineRunDeliversOncePerMatch` and `LineRunFaultIsFinal`. |
| ChatMonitor.LineOutcome | src/main/monitor.js:42-51 | The same run described by its result. Equal to `LineRun` by `LineRunIsOutcome`. No contract of its own. |
| ChatMonitor.PiecesRun | src/main/monitor.js:39 | The pieces of the data in order, each as a line, stopping at the first exception. No contract of its own. |
| ChatMonitor.DataRun | src/main/monitor.js:37-40 | `processData`: piece by piece when the data holds `'\n'`, otherwise one line. Described by `NewlineSplitsOffFirstLine`. |
| ChatMonitor.Monitor.constructor | src/main/monitor.js:5-8 | A new monitor has no callbacks and no filters, and has made no calls. |
| ChatMonitor.Monitor.On | src/main/monitor.js:17-19 | `on(e, cb)` registers `cb` for `e`, replacing any earlier callback, and no other slot changes. |
| ChatMonitor.Monitor.Fire | src/main/monitor.js:21-23 | `fire(e, d)` calls the callback last registered for `e` once with `d`. With none registered it throws and calls nothing. |
| ChatMonitor.Monitor.TailError | src/main/monitor.js:14 | A tail error is fired to the `error` callback, or throws when there is none. |
| ChatMonitor.Monitor.AddFilter | src/main/monitor.js:25-27 | A compiling pattern appends exactly one new entry at the end and keeps the others, even when an entry with the same pattern exists. A pattern that does not compile throws and adds nothing. |
| ChatMonitor.Monitor.RemoveFilter | src/main/monitor.js:29-35 | The walk that deletes during `forEach` leaves exactly `Removed(old filters, p)`. |
| ChatMonitor.RemovedDropsExactlyPattern | src/main/monitor.js:29-35 | After `removeFilter(p)` no entry has pattern `p`, and every other entry is kept as often as before. |
| ChatMonitor.RemovedAppend | src/main/monitor.js:29-35 | Removal works entry by entry and keeps the order of what it keeps. |
| ChatMonitor.RemoveAbsentIsNoOp | src/main/monitor.js:29-35 | Removing a pattern that no entry has changes nothing. |
| ChatMonitor.RemoveIsIdempotent | src/main/monitor.js:29-35 | Removing a pattern twice is the same as removing it once. |
| ChatMonitor.AddThenRemove | src/main/monitor.js:25-35 | Adding then removing `p` equals removing `p` alone. When `p` was absent, both the set and its saved pattern list are restored. |
| ChatMonitor.Monitor.ProcessData | src/main/monitor.js:37-52 | Appends to the call log exactly the calls of `DataRun` and raises its exception: data holding `'\n'` is handled piece by piece, in order, stopping at the first exception. |
| ChatMonitor.NewlineSplitsOffFirstLine | src/main/monitor.js:38-40 | Data `a + "\n" + b`, where `a` has no newline, is handled as the line `a` followed by the data `b`. Empty pieces are kept. |
| ChatMonitor.Monitor.DispatchLine | src/main/monitor.js:42-51 | The `forEach` over the filters appends exactly the calls of `LineRun` and raises its exception. |
| ChatMonitor.Monitor.FireMatch | src/main/monitor.js:43-48 | A matching entry calls `getInfo` and then fires `line` with `{info, filter: raw}`, or raises the exception of either. |
| ChatMonitor.LineRunFaultIsFinal | src/main/monitor.js:42-51 | Once an entry has thrown, no later entry is reached. |
| ChatMonitor.MatchingIsTheMatchingPatterns | src/main/monitor.js:42-43 | A pattern is reported for a line if and only if some entry has it and its expression matches the line. |
| ChatMonitor.MatchingCountsEntries | src/main/monitor.js:42-43 | A pattern is reported once per entry that has it when it matches the line, and never otherwise: two entries with the same pattern report it twice. |
| ChatMonitor.DeliveriesFollowPatterns | src/main/monitor.js:44-47 | The k-th `line` delivery carries the k-th matching pattern, and there is one delivery per pattern. |
| ChatMonitor.LineRunIsOutcome | src/main/monitor.js:42-51 | The entry-by-entry run equals its closed form: nothing without a match; otherwise the `getInfo` or `fire` exception, or one delivery per match. |
| ChatMonitor.LineRunDeliversOncePerMatch | src/main/monitor.js:42-51 | For a newline-free line, no match means no calls and no exception, so `getInfo` is never reached. The run throws, before any call, if and only if something matches and the line has no marker or no `line` callback is registered. Otherwise it makes one call per matching entry, in set order, each with the line's info and that entry's pattern. |
| Renderer.SkipNonLetters | src/renderer/main.js:24 | The rest of a run of non-letters is skipped; the result is no longer than the input. |
| Renderer.SkipStopsAtLetter | src/renderer/main.js:24 | Skipping leaves a suffix that is empty or starts with a letter, and everything skipped is a non-letter. |
| Renderer.IsAsciiLetter | src/renderer/main.js:24 | The complement of the class `[^a-z]` under the `i` flag: the ASCII letters of either case. No contract of its own; used by `NormalizeGivesNormalForm`, `NormalizeKeepsLetters` and `NormalizeReplacesRun`. |
| Renderer.NormalizeFilter | src/renderer/main.js:23-25 | `filter.replace(/([^a-z]+)/ig, '-')`. No contract of its own; described by the lemmas below. |
| Renderer.NormalizeBounds | src/renderer/main.js:24 | The output is no longer than the input, is empty only for empty input, and keeps a leading letter. |
| Renderer.NormalizeReplacesRun | src/renderer/main.js:24 | Where each `-` goes: a non-empty run of non-letters with a letter or the start before it, and a letter or the end after it, becomes exactly one `-`, and the text on each side is normalized on its own. |
| Renderer.NormalizeSplitsAfterLetter | src/renderer/main.js:24 | No run crosses a letter: text ending in a letter is normalized apart from what follows it. |
| Renderer.NormalizeGivesNormalForm | src/renderer/main.js:24 | The output holds only ASCII letters and `-`, and never two `-` side by side. |
| Renderer.SkipDropsNoLetter | src/renderer/main.js:24 | The characters a run swallows are not letters. |
| Renderer.NormalizeKeepsLetters | src/renderer/main.js:24 | Deleting every `-` from the output gives exactly the letters of the input, in order. |
| Renderer.NormalFormIsFixed | src/renderer/main.js:24 | Text already of letters and single `-` comes back unchanged. |
| Renderer.NormalizeIsIdempotent | src/renderer/main.js:23-25 | Normalizing twice is normalizing once. |
| Renderer.LettersOnlyUnchanged | src/renderer/main.js:24 | A letters-only filter is returned unchanged. |
| Renderer.WhisperUsername | src/renderer/main.js:253-255 | The copy-whisper username. Described by `WhisperUsernameIsBetweenMarkers`. No contract of its own. |
| Renderer.CopyText | src/renderer/main.js:257 | The clipboard text. Described by `CopyTextFramesUsername`. No contract of its own. |
| Renderer.WhisperUsernameIsBetweenMarkers | src/renderer/main.js:253-255 | For a name holding `"> "`, the username is the text between its first `"> "` and the next one or the end. Any other name is kept whole. |
| Renderer.CopyTextFramesUsername | src/renderer/main.js:251-257 | The clipboard text is `@`, then the extracted username, then one space. |

## Left out

- Following the log file through the `tail` package (src/main/monitor.js:1, 9-13). This covers watching, rotation and partial lines, and is foreign I/O. The model starts at the `line` events it delivers, which are calls of `ProcessData`.
- The `Date`/`moment` value of `info.date` (src/main/monitor.js:62). Only the text handed to `new Date` is modelled, as `ChatLine.DateText`. Calendar and locale parsing are foreign code.
- The regular-expression engine and `new RegExp` itself. Matching and compiling are the parameters `matches` and `compiles` of the class.
- The Electron main process beyond the saved pattern list: windows, IPC, `electron-store` and the clipboard. The renderer's DOM, jQuery, DataTables, tabs and audio are left out too. These are I/O and UI.
- ChatMonitor.Monitor.Fire: only callbacks stored with `on` count as registered. In the program `this.events` is a plain object, so a name inherited from `Object.prototype` (such as `toString`) is never missing, and `fire` then calls that built-in instead of throwing. The program fires only `line` and `error`, which are not inherited names.
- ChatMonitor.Monitor.On: `on('__proto__', cb)` replaces the object's prototype instead of filling a slot. This is not modelled.
- ChatMonitor.Monitor.Fire: registered callbacks are assumed to return normally. A callback can throw, for example the `line` handler at src/main/index.js:27-29 once the window has been closed (src/main/index.js:51-53) while the app stays up on macOS (src/main/index.js:56-60). That would end the `forEach` over the filters and the remaining pieces at that point, and the model has no such fault.
- Callbacks that change the monitor (its filters or callbacks) while `processData` is still walking the filters. A callback is an opaque identity, and a call is only recorded in `log`.
- Concurrency. The program runs on one JavaScript event loop.
- Exceptions are modelled as a returned `Fault` and not as control flow. Once a fault is raised, nothing after it in the same `processData` call runs.
- Strings are sequences of `char`, while JavaScript uses UTF-16 code units. `trim` uses the whitespace and line-terminator characters of ECMAScript.
- The `filter &&` test on src/main/monitor.js:43 is always true for the objects `addFilter` stores, so it is not modelled.
