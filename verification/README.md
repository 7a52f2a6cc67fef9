# Models of the wq repository's stateful cores

This project models the parts of the wq repository whose correctness is not visible from reading one
function: a history file that several editors append to, a dynamic-programming line matcher, shell quoting
for completion, two bracket algorithms, the browser session's disposal protocol, release versioning, git
status parsing, the recursive script loader, the Debug Adapter Protocol framing and the editor's walk
through its history.

Each source file that changes state has its class or looping methods here, with the same branches.  The
methods' contracts tie their results and new states to functions, and the promises of the source are
proved about those functions and methods, for all inputs and all runs.

| file | what it models |
|---|---|
| `HistoryText.dfy`, `MemHistory.dfy` | the escaped, versioned file format; the capped in-memory history and its nearest-match search |
| `HistoryFile.dfy`, `HistoryRoundTrip.dfy` | saving, loading and appending with its three routes; saving and loading as a round trip, and what is unsaved |
| `HistoryLoading.dfy` | what any file at all loads to, one of the older format included |
| `HistoryProtocol.dfy` | any number of histories that share one file, in every interleaving of opening, loading, adding and appending |
| `LineAlignment.dfy` | the rolling-row table and the traceback of the line matcher, and their optimality |
| `Quoting.dfy`, `CommonPrefix.dfy` | escaping, unescaping, the quote scanner and the word finder as one round trip; the longest common prefix |
| `Brackets.dfy` | the stack validator and the counting search, each against a grammar or a definition, and against each other |
| `SessionLifecycle.dfy` | the session facade as a state machine over its steps, with the trace of what reaches the core |
| `SessionConduct.dfy` | which calls reach the core, when a slice is entered, what each answer leads to, and how an abort ends an evaluation |
| `Decimal.dfy`, `Fields.dfy`, `Versions.dfy` | SemVer parsing, precedence and the automatic bump |
| `GitStatus.dfy` | NUL-delimited git status output |
| `Loading.dfy`, `LoadRuns.dfy`, `ImportGraph.dfy`, `ScriptLoader.dfy` | what loading a script means; what every load does to the session; what it says about the import graph; the loader as it is written |
| `LoadPlans.dfy` | a load as a flat plan of fragments, warnings and loads read off the files alone, and its performance |
| `DapFraming.dfy`, `BrokenFrames.dfy` | Content-Length frames, written by several senders and read back; what the client reads when writes break off |
| `HistoryWalk.dfy` | the editor's history index, line and saved line |

`Wrappers.dfy` holds `Option` and `Result`, `Characters.dfy` a class of characters and `Sequences.dfy` a fact
about sequences.  `dafny verify dfyconfig.toml` checks everything.

## Where the code falls short of a general promise

Some natural promises do not hold of the code as it stands.  For each of them the project has the exact
condition under which the promise does hold, and a concrete input that shows it fail.

- An entry that ends in a carriage return does not survive saving and loading; all others do
  (`SaveLoadRoundTrip`, shown by `FinalCrIsLost`).
- Loading a file into a history that already holds entries records the growth of the history as the size
  of the file, which is right exactly if nothing had to make room (`ReloadRecordsSize`, shown by
  `ReloadUndercounts`).  After such a load the cheap route of an append no longer does what the full route
  would do (`CheapRouteAgreesIffRoomy`), and can leave more entries in the file than the cap
  (`CheapRouteMayOverfill`, shown by `CheapRouteOverfills`); what the file decodes to is right all the same.
- A completion re-parses to the same path always in double quotes, in single quotes exactly if the path
  holds no single quote, and outside quotes exactly for the paths of `EndsOutsideQuotes`, which are all of
  them where the text before the word is outside quotes and escapes (`CompletionReparses`, shown by
  `MisreadInSingleQuotes` and `MisreadOutsideQuotes`).
- `next_version` gives a version that `require_version_advance` refuses exactly if the last prerelease
  identifier is not a number and its trailing digits are all nines (`NextVersionAdvances`, shown by
  `Rc9CountsOver`).
- Sequence numbers on the wire have no gaps exactly if nothing was sent after a send that lost its number,
  to a serialization error or to a write that failed before the whole frame was out
  (`NumbersAreConsecutive`, shown by `GapAfterFailedWrite`).
- The client reads back exactly the messages whose whole frame was written, and then the end of the input,
  exactly if every frame that a failing write broke off was broken off before its first byte or right behind
  its length line, which the next length line replaces, or among or behind the digits of its length with
  nothing at all following (`SentIsRead`, and `NextIsReadIffReadOver` for one frame behind another; shown by
  `ReadsWhatNobodySent`).  A frame broken off behind its header takes what follows for the rest of its payload
  (`BrokenFrameSwallows`).

## Model

| member | source | states |
|---|---|---|
| HistoryText.WriteEntry | wq-rl/src/history.rs:494-513 | The writer's copy-and-escape loop writes one line per entry, with every line feed and backslash escaped |
| HistoryText.ReadEntry | wq-rl/src/history.rs:539-574 | The reader's lazy unescaping loop gives the unescaped line, or the line as it stands if it holds an escape the writer never produces |
| HistoryText.UnescapeEscape | wq-rl/src/history.rs:495-511 | Unescaping undoes escaping for every entry |
| HistoryText.ReadWrittenLine | wq-rl/src/history.rs:519-575 | Splitting into lines and decoding takes nothing from a written entry but a final carriage return |
| HistoryText.LinesOfEncode | wq-rl/src/history.rs:482-523 | A written file splits into the version line and exactly one line per entry, whatever line feeds the entries hold |
| MemHistory.History.Ignore | wq-rl/src/history.rs:255-271 | Which lines are refused: all under a cap of zero, blank ones, and repeats of the last entry if those are ignored |
| MemHistory.History.Insert | wq-rl/src/history.rs:273-278 | The new entry list and that nothing else changes, a cap of zero included |
| MemHistory.History.Add | wq-rl/src/history.rs:301-307 | The new state, and true exactly if the line was not refused |
| MemHistory.History.SetMaxLen | wq-rl/src/history.rs:325-331 | The last entries that fit are kept |
| MemHistory.History.SearchMatch | wq-rl/src/history.rs:208-253 | The match nearest to the start in the given direction, with its entry and position; None exactly if there is none, the term is empty or the start is outside |
| MemHistory.CappedRefinesUnbounded | wq-rl/src/history.rs:255-307 | With a cap of at least 1, the history is the tail of an uncapped history fed the same lines under the same filters |
| MemHistory.EveryInterleavingStaysCapped | wq-rl/src/history.rs:255-331 | Under any mix of add and set_max_len the cap holds, and no two neighbours are equal if repeats are ignored |
| MemHistory.EveryInterleavingIsAView | wq-rl/src/history.rs:255-331 | Under any mix of add and set_max_len, raised or lowered, the history is the newest end of an append-only journal of every line that was neither blank nor a repeat |
| HistoryFile.FileHistory.Add | wq-rl/src/history.rs:645-652 | The new entry is counted as unsaved, up to the number of entries |
| HistoryFile.FileHistory.SetMaxLen | wq-rl/src/history.rs:671-675 | The last entries that fit are kept, and no more of them count as unsaved than fit |
| HistoryFile.FileHistory.SaveTo | wq-rl/src/history.rs:482-517 | Writes the version line and every entry, or only the unsaved entries |
| HistoryFile.FileHistory.LoadFrom | wq-rl/src/history.rs:519-579 | Feeds the file's lines to the history; appendable exactly for a versioned file none of whose lines was refused |
| HistoryFile.FileHistory.CanJustAppend | wq-rl/src/history.rs:601-623 | The guard of the cheap route: same path, same stamp, room for what was there and what is new |
| HistoryFile.FileHistory.Save | wq-rl/src/history.rs:685-697 | Overwrites the file with all entries and records the path, the stamp and the size; does nothing if nothing is new |
| HistoryFile.FileHistory.MergeWith | wq-rl/src/history.rs:723-740 | The full route's second history holds the file's entries and then the unsaved ones, under the cap |
| HistoryFile.FileHistory.Append | wq-rl/src/history.rs:699-744 | Which of the three routes is taken, what it writes, and what it records |
| HistoryFile.FileHistory.Load | wq-rl/src/history.rs:746-757 | The history after loading, the recorded growth, and the path forgotten for another format; an error and no change for a missing file |
| HistoryRoundTrip.SaveLoadRoundTrip | wq-rl/src/history.rs:482-579 | Saving any history, whatever adds, caps, saves, appends and loads it came from, and loading it into a fresh one gives the same history, nothing new and the file appendable, exactly if no entry ends in a carriage return; with nothing unsaved, saving does nothing |
| HistoryRoundTrip.EncodedLoadsBack | wq-rl/src/history.rs:519-579 | The same for any capped history of entries its filters let through and any file that holds their written form |
| HistoryRoundTrip.EveryHistoryIsGood | wq-rl/src/history.rs:645-757 | Every history, whatever calls and files it came from, is within its cap, holds only entries its filters let through in that order, and counts no more unsaved entries than it has |
| HistoryRoundTrip.FinalCrIsLost | wq-rl/src/history.rs:519-535 | The entry that shows the exception |
| HistoryRoundTrip.LoadWrittenFile | wq-rl/src/history.rs:519-579 | A written file loaded behind entries it fits with is appended to them and stays appendable |
| HistoryRoundTrip.ReloadRecordsSize | wq-rl/src/history.rs:746-756 | For any file and any capped history: a size is recorded exactly if the file is versioned and none of its lines is refused, and it is the number of entries in the file exactly if nothing had to make room |
| HistoryRoundTrip.ReloadUndercounts | wq-rl/src/history.rs:746-756 | A full history that loads a file of one entry and records none |
| HistoryRoundTrip.UnsavedIsPending | wq-rl/src/history.rs:645-757 | Whatever calls come in whatever order, the unsaved entries are the lines accepted since the last save, append or load, except those the cap has pushed out |
| HistoryLoading.LinesAreFields | wq-rl/src/history.rs:519-534 | The lines of a text are its fields between line feeds, without a carriage return in front of one and without a final empty field |
| HistoryLoading.DecodeLineMeans | wq-rl/src/history.rs:539-574 | A line of a versioned file stands for the one entry it is the written form of, and for itself if it is the written form of none |
| HistoryLoading.OtherFormatLoads | wq-rl/src/history.rs:519-579 | A file without the version line adds every line that is not empty, the first one included and each as it stands, and is never appendable |
| HistoryLoading.VersionedLoads | wq-rl/src/history.rs:519-579 | A versioned file adds what each of its lines stands for, and is appendable exactly if all are taken |
| HistoryLoading.OldFormatIsRewritten | wq-rl/src/history.rs:699-757 | The first append behind a file of the older format rewrites it as a versioned file of all its lines and the new one |
| HistoryLoading.OldFileOfTwo | wq-rl/src/history.rs:526-532 | A file of two lines of the older format gives both |
| HistoryLoading.VersionedFileOfTwo | wq-rl/src/history.rs:536-574 | A file that starts with #V2, of an entry with an escaped line feed and of a line with a bad escape |
| HistoryLoading.SavesAreRecorded | wq-rl/src/history.rs:685-697 | A save leaves the file of all entries, records its stamp and how many it holds, leaves nothing to save and changes no other file |
| HistoryLoading.UnknownFilesAreMerged | wq-rl/src/history.rs:601-744 | An append to a file of another path, or that somebody else wrote since, reads it, adds what is unsaved and records what it wrote; no append changes another file |
| HistoryProtocol.CheapGuard | wq-rl/src/history.rs:601-623 | When the cheap route fires, the batch is all that is unsaved and repeats nothing, the recorded size and the batch fit under the cap, and that size is exact exactly if the last load had room |
| HistoryProtocol.EveryRouteWritesExpected | wq-rl/src/history.rs:699-744 | On every route the tail of the file is the tail of everything appended so far, in lock order; overwriting and merging leave just that tail and record its length, the cheap route leaves the old entries and the new ones |
| HistoryProtocol.CheapRouteAgreesIffRoomy | wq-rl/src/history.rs:710-743 | The cheap route leaves the very file and history the full route would have left, exactly if the last load had room for the whole file |
| HistoryProtocol.CheapRouteMayOverfill | wq-rl/src/history.rs:710-721 | The cheap route leaves the old entries and the new ones, so more than the cap exactly if they are more, which takes a load without room |
| HistoryProtocol.CheapRouteOverfills | wq-rl/src/history.rs:710-721 | A run of openings, a load, adds and appends that ends with three entries in the file under a cap of two |
| HistoryProtocol.StepKeepsInv | wq-rl/src/history.rs:645-757 | Opening, loading at any time, adding and appending each keep the protocol's invariant |
| HistoryProtocol.RunKeepsInv | wq-rl/src/history.rs:645-757 | So does every run |
| HistoryProtocol.EveryRunWritesWhatWasAppended | wq-rl/src/history.rs:699-744 | After any interleaving of any number of histories, loads included, the file decodes to the last max_len of everything appended, in lock order, and a current stamp records the exact number of entries in it exactly if the last load had room |
| HistoryProtocol.RunsWithoutLoads | wq-rl/src/history.rs:699-744 | Without loads a current stamp always records the exact number, and the file never holds more than max_len entries |
| HistoryProtocol.AppendedLinesEndTheFile | wq-rl/src/history.rs:699-744 | After its append the entries a history accepted since its last append or load end the file: none is lost except to the cap |
| LineAlignment.FillCell | hotchoco.py:449-473 | One cell's score is the recursive optimum for its two prefixes, and its direction is where that score comes from |
| LineAlignment.FillTable | hotchoco.py:441-474 | The rolling rows and the direction table hold the recursive optimum and its origins in every cell |
| LineAlignment.TraceBack | hotchoco.py:476-491 | The loop terminates and collects, in order, the path the directions describe |
| LineAlignment.MatchSimilarLines | hotchoco.py:425-491 | Within the comparison limit the result is an order-preserving matching above the threshold whose total equals the final cell and is at least that of any other such matching; beyond it the result is empty |
| LineAlignment.Problem.ScoreIsUpperBound | hotchoco.py:458-473 | No order-preserving above-threshold matching of two prefixes exceeds their cell |
| LineAlignment.Problem.PathAttainsScore | hotchoco.py:476-491 | Following the directions from any cell collects a matching whose total is the cell's score |
| LineAlignment.Problem.PathIsOptimal | hotchoco.py:425-491 | The path's total is at least that of any other order-preserving above-threshold matching |
| LineAlignment.Problem.PairsPassAllRatios | hotchoco.py:449-466 | Two lines can be paired exactly if all three ratios are above one half, and count as much as the exact one |
| LineAlignment.Problem.PathPrefersLateMatches | hotchoco.py:458-491 | Which of several best matchings it is: from the end, the one that pairs the last two lines if a best one does, otherwise leaves the last actual line alone if a best one does |
| LineAlignment.Problem.QuickRatiosOnlyPrune | hotchoco.py:451-456 | If the cheap ratios bound the exact one from above, as difflib documents, testing them first changes no pair above the threshold |
| Quoting.Escape | wq-rl/src/completion.rs:304-333 | Every special character gets the escape character in front, except in single quotes or without one |
| Quoting.Unescape | wq-rl/src/completion.rs:273-298 | The escape character goes and the character behind it stays; at the end of the text it goes alone |
| Quoting.UnescapeEscaped | wq-rl/src/completion.rs:273-333 | Unescaping undoes escaping for any escape character that is itself special |
| Quoting.DanglingEscapeIsDropped | wq-rl/src/completion.rs:273-298 | An escape character at the end, with nothing behind it, is dropped |
| Quoting.FindUnclosedQuote | wq-rl/src/completion.rs:503-547 | The five-mode forward scanner reports the quote still open at the end and where it is |
| Quoting.ExtractWord | wq-rl/src/completion.rs:426-458 | The backward search for an unescaped break character, and the word behind it |
| Quoting.CompletionTarget | wq-rl/src/completion.rs:226-254 | Which branch a line takes, where the word starts, which path it stands for, and how a replacement is escaped |
| Quoting.Complete | wq-rl/src/completion.rs:124-127 | The line up to the cursor after the elected candidate replaced the word |
| Quoting.DoubleQuotedRoundTrip | wq-rl/src/completion.rs:226-254 | Behind text outside quotes, an opening double quote and the escaped word come back as the double-quoted branch, the start right behind the quote and the original word |
| Quoting.SingleQuotedRoundTrip | wq-rl/src/completion.rs:238-246 | The same for a single quote, exactly if the word holds none |
| Quoting.UnquotedRoundTrip | wq-rl/src/completion.rs:247-251 | The same without quotes, exactly if an unescaped break character or the start of the line precedes the word |
| Quoting.DelimitedRoundTrip | wq-rl/src/completion.rs:247-251 | In particular behind a delimiter, exactly if no backslash precedes the delimiter |
| Quoting.FinderAnchors | wq-rl/src/completion.rs:437-452 | Wherever the backward search stops on any line, it would stop again if started there |
| Quoting.CompletionReparses | wq-rl/src/completion.rs:226-254 | Completing any line to any path re-parses to that path: always in double quotes, exactly for paths without a single quote in single quotes, and without quotes exactly if the path leaves the scanner outside quotes, which depends on how the text before the word leaves it |
| Quoting.EscapedPathEnds | wq-rl/src/completion.rs:503-547 | Which escaped paths leave the scanner outside quotes, from each of its five modes |
| Quoting.MisreadInSingleQuotes | wq-rl/src/completion.rs:238-246 | A path misread in single quotes |
| Quoting.MisreadOutsideQuotes | wq-rl/src/completion.rs:247-251 | A line and a path misread outside quotes |
| Quoting.SomePathIsMisread | wq-rl/src/completion.rs:503-547 | In each of the other four modes some path is misread |
| Quoting.InsertedIsOneWord | wq-rl/src/completion.rs:172-179 | Outside quotes no blank, quote or shell character of an inserted path keeps its meaning, in double quotes none of those that have one there |
| Quoting.PlainPathStands | wq-rl/src/completion.rs:304-333 | A path without any of these is put in as it stands |
| CommonPrefix.BoundaryIffWholeCharacters | wq-rl/src/completion.rs:481-484 | The byte test for a character boundary finds exactly the cuts between whole characters |
| CommonPrefix.CommonLength | wq-rl/src/completion.rs:467-480 | The adjacent-pair comparison ends and finds the longest byte prefix common to all candidates |
| CommonPrefix.BackOff | wq-rl/src/completion.rs:481-484 | Backing off to a boundary loses no common prefix that ends between characters |
| CommonPrefix.LongestCommonPrefix | wq-rl/src/completion.rs:461-489 | For two or more candidates, a common prefix that ends on a boundary in every candidate, no shorter than any other such prefix; None exactly if it is empty |
| Brackets.ValidateBrackets | wq-rl/src/validate.rs:109-135 | Valid exactly for nested text, incomplete exactly for text that is not nested but that some suffix completes, invalid exactly for text that none completes; and which bracket is reported |
| Brackets.VerdictMeans | wq-rl/src/validate.rs:109-135 | The stack's verdict against the nesting grammar, in all three cases |
| Brackets.InvalidNames | wq-rl/src/validate.rs:109-127 | Input beyond repair is blamed on the first closing bracket nothing can repair: on itself if all before it is nested, otherwise on the innermost bracket still open there |
| Brackets.PairsOfBrackets | wq-rl/src/validate.rs:115-116 | Exactly the three pairs close each other |
| Brackets.FindMatchingBracket | wq-rl/src/highlight.rs:139-179 | The position at which the count first returns to zero, in the direction the bracket gives; None exactly if there is none |
| Brackets.SearchReturns | wq-rl/src/highlight.rs:139-179 | On any line, a successful search from a bracket repeated from its result returns to it |
| Brackets.SearchIsUnique | wq-rl/src/highlight.rs:139-179 | A search has at most one result |
| Brackets.PoppedIsFound | wq-rl/src/validate.rs:113-129 | Whatever bracket the validator pops, on any input, the counting search finds from either side |
| Brackets.PairingsAgree | wq-rl/src/validate.rs:109-135 | On every accepted input each open bracket is popped by exactly one closing bracket, and that is the one the counting search returns |
| SessionLifecycle.StepKeepsInv | wq-wasm/browser.js:146-242 | Every step of the facade and of the suspended evaluation keeps the invariant that ties the private fields to the trace of core calls |
| SessionLifecycle.RunKeepsInv | wq-wasm/browser.js:146-476 | So does every run, with reentrant calls at every core call and every await |
| SessionLifecycle.EveryRunIsSafe | wq-wasm/browser.js:146-476 | In every run the core is freed at most once, never while something is active, and nothing reaches it afterwards; it has been freed exactly if disposal was requested and nothing is active; and every started evaluation is finished or cancelled once, before the session is freed or another one starts |
| SessionLifecycle.ObservedMeans | wq-wasm/browser.js:231-250 | What an accepted trace says: one free at most and at its end, and as many finishes and cancellations as starts, up to the one still open |
| SessionLifecycle.StopsReachTheirOwnPause | wq-wasm/browser.js:176-215 | In every run a debugger stop reaches the core exactly while its own pause is being handled |
| SessionLifecycle.StepKeepsPauseInv | wqpl/src/vm/debug.rs:95-159 | Every step keeps the pause ids handed out strictly increasing and below the core's counter, and the core is out of its pause wherever a slice is run |
| SessionLifecycle.NoSliceAfterDisposal | wq-wasm/browser.js:330-342 | Once disposal is requested no further slice is entered |
| SessionLifecycle.DisposalCompletes | wq-wasm/browser.js:231-476 | Once disposal is requested in any run, returning the calls in progress and letting the suspended evaluation go on takes at most six steps more than there are calls, and when nothing of this is left to do the core has been freed |
| SessionLifecycle.WasmWqSession.Call | wq-wasm/browser.js:146-158 | A facade call is refused when disposed, disposing or evaluating, and otherwise enters the core |
| SessionLifecycle.WasmWqSession.StopCall | wq-wasm/browser.js:176-187 | A stop's method is refused unless its pause id is the active one and there is a session |
| SessionLifecycle.WasmWqSession.FlushDisposal | wq-wasm/browser.js:231-243 | Frees the core only when that was requested and nothing is active |
| SessionLifecycle.WasmWqSession.EvalWqAsync | wq-wasm/browser.js:289-328 | The checks before an evaluation, the early abort, and the start |
| SessionLifecycle.WasmWqSession.SliceReturned | wq-wasm/browser.js:356-464 | What follows each status of a slice, an unknown one included |
| SessionLifecycle.WasmWqSession.Finally | wq-wasm/browser.js:465-476 | An evaluation that started and did not finish is cancelled before it ends |
| SessionLifecycle.WasmWqSession.Perform | wq-wasm/browser.js:146-476 | The class takes the steps of the state machine the properties above are proved about |
| SessionConduct.CallsReachTheIdleCore | wq-wasm/browser.js:135-158 | In every run a facade call reaches the core exactly if there is one, its disposal was not requested and no evaluation runs |
| SessionConduct.FreeIsHonoured | wq-wasm/browser.js:231-250 | A disposal request frees the core at once exactly if nothing is active, and is kept otherwise |
| SessionConduct.ReturnsDispose | wq-wasm/browser.js:151-157 | The last call to return carries out a disposal that waited for it |
| SessionConduct.StartsIff | wq-wasm/browser.js:289-328 | An evaluation starts exactly if the core is idle, the options are valid and the signal is not set; otherwise nothing reaches the core |
| SessionConduct.AbortsCancel | wq-wasm/browser.js:329-346 | At the top of the loop a slice is entered exactly if neither the signal is set nor disposal was requested; otherwise the evaluation is cancelled, with nothing in between |
| SessionConduct.SlicesAreEnteredAtTheTop | wq-wasm/browser.js:329-346 | No other step of any run enters a slice |
| SessionConduct.CancelEnds | wq-wasm/browser.js:465-476 | A cancelled evaluation is over when the core returns, whatever it answers, and a waiting disposal is carried out; nothing else moves it |
| SessionConduct.FailuresCancel | wq-wasm/browser.js:465-476 | A core method that throws cancels the evaluation, unless it had not started or is being cancelled |
| SessionConduct.SlicesAreAnswered | wq-wasm/browser.js:356-464 | What the core sees and where the evaluation goes after each status of a slice |
| SessionConduct.NotificationsAreDelivered | wq-wasm/browser.js:212-229 | Every notification taken is delivered before the evaluation finishes, yields or pauses; a handler that throws cancels it |
| SessionConduct.AwaitsAreAnswered | wq-wasm/browser.js:378-452 | Input and failed input callbacks are handed on unless an abort or a disposal is behind the failure; a handled pause is resumed |
| SessionConduct.AbortCompletes | wq-wasm/browser.js:289-476 | Once the host has aborted, in any run, whatever else is called and whatever the core answers, the evaluation takes at most six more steps, none starts again, and where no step is left it is over |
| Decimal.ParsePrint | publish-scripts/release_support.py:100-107 | Printed numbers are canonical and parse back |
| Decimal.OthersCountUp | publish-scripts/release_support.py:107-107 | Adding one to a digit run that is not all nines gives a lexicographically larger run, leading zeros or not |
| Decimal.NinesCountOver | publish-scripts/release_support.py:107-107 | Adding one to nothing but nines gives a lexicographically smaller run |
| Fields.SplitJoin | publish-scripts/release_support.py:102-102 | Splitting undoes joining fields that do not hold the separator |
| Fields.JoinSplit | publish-scripts/release_support.py:45-45 | Joining undoes splitting |
| Versions.ParsePrinted | publish-scripts/release_support.py:40-70 | Every well-formed version parses back from its text |
| Versions.PrintParsed | publish-scripts/release_support.py:40-70 | Every accepted text is the text of the version it parses to |
| Versions.ParsedIdentifiers | publish-scripts/release_support.py:40-70 | Every prerelease or build identifier of an accepted version is a nonempty run of ASCII letters, digits and hyphens |
| Versions.LeadingZerosAreRefused | publish-scripts/release_support.py:46-61 | What would be a version but for leading zeros is refused for the first identifier that has one |
| Versions.CompareIsSemVerPrecedence | publish-scripts/release_support.py:73-94 | On parsed versions the comparison is precedence as section 11 of Semantic Versioning 2.0.0 defines it, in all three outcomes |
| Versions.ComparisonIsTotalOrder | publish-scripts/release_support.py:73-94 | Antisymmetric in sign, transitive, and zero exactly if core and prerelease agree |
| Versions.AntisymmetryNeedsTheParser | publish-scripts/release_support.py:46-61 | Without the rejection of leading zeros the comparison of two identifiers is one-sided for exactly the pairs of different texts with the same value |
| Versions.LeadingZeroBreaksAntisymmetry | publish-scripts/release_support.py:87-88 | A pair that shows it |
| Versions.NextVersionPrintsNext | publish-scripts/release_support.py:97-108 | The bump works on the joined text, and yet is the text of the version with its patch or its last identifier bumped; build metadata goes |
| Versions.NextVersionAdvances | publish-scripts/release_support.py:97-117 | The bump of an accepted version is accepted, and passes the advance check in all cases except exactly when the last prerelease identifier is not a number and its trailing digits are all nines |
| Versions.AdvanceIsPrecedence | publish-scripts/release_support.py:111-117 | For all texts the advance check passes exactly if both parse and the target comes after the current version; otherwise which error it gives |
| Versions.AdvanceIsStrictOrder | publish-scripts/release_support.py:111-117 | No version follows itself, never two each other, and what follows a follower follows |
| Versions.SamePrecedenceIsRefused | publish-scripts/release_support.py:111-117 | Two versions refuse each other exactly if they differ in build metadata at most |
| Versions.BumpIsNextRelease | publish-scripts/release_support.py:97-101 | No release is between a release and its bump |
| Versions.BumpStaysPrerelease | publish-scripts/release_support.py:102-108 | The bump of a prerelease is one of the same release that differs in its last identifier or has a further one |
| Versions.BumpIsNextNumber | publish-scripts/release_support.py:102-108 | No other number in place of the last identifier is between the two |
| Versions.BumpedDigits | publish-scripts/release_support.py:103-108 | The text before the digits stays, and the digits are those of the next number without leading zeros |
| Versions.Rc9CountsOver | publish-scripts/release_support.py:97-117 | The bump of 1.0.0-rc9 is refused |
| GitStatus.ChangedPaths | publish-scripts/release_support.py:246-266 | The loop returns the paths of the entries the grammar below reads, and fails exactly where and how it does |
| GitStatus.ReadPrinted | publish-scripts/release_support.py:246-266 | Printing any list of status entries and reading it gives the entries back |
| GitStatus.PathsInOrder | publish-scripts/release_support.py:254-266 | The paths returned are those the entries are about, in order, never the ones they came from |
| GitStatus.AcceptedIsPrinted | publish-scripts/release_support.py:246-266 | Every accepted input is the print of exactly one list of status entries |
| GitStatus.RejectedMeans | publish-scripts/release_support.py:246-266 | What each error says: no final NUL; or some entries and then a record that is none, or a rename without its second path |
| GitStatus.RenamesAndCopiesNameTwoPaths | publish-scripts/release_support.py:257-265 | An entry takes a second path exactly if one of its two status letters is R or C |
| LoadRuns.ScriptRunIsSound | wq-cli/src/load.rs:119-150 | In every load, nothing is given to a halted session or after a failure, and the load fails with an evaluation error exactly if the last fragment it ran raised it, under that fragment's script |
| LoadRuns.LoadRunsEmbeddedOnce | wq-cli/src/load.rs:192-211 | Within one top-level load each embedded script is started at most once, on every path of the import graph, and after a success those started are exactly those registered |
| LoadPlans.LoadPerformsPlan | wq-cli/src/load.rs:76-226 | Every load does exactly what performing the flat plan of its files does: same fragments in the same order, same value, warnings and last label, same error and import stack |
| LoadPlans.ItemsPerformPlan | wq-cli/src/load.rs:119-150 | So does any list of items, an inline snippet included |
| LoadPlans.LoadGivesItsFragments | wqpl/src/session.rs:1108-1138 | The session is given the fragments the files determine, in order and up to the first that raises or halts it, and the value returned is what the last of them came to, or none |
| ImportGraph.CompletionClearsEveryRoute | wq-cli/src/load.rs:76-117 | A load that completes proves that on every route through its static import graph each script exists, none was being loaded already and none comes twice |
| ImportGraph.EveryFailureIsExplained | wq-cli/src/load.rs:84-96 | Every error is located by a route of that graph, which is the reported import stack; a cycle error means exactly that the route came back to a script on it, an I/O error that it left the existing scripts |
| ImportGraph.CycleErrorExactlyOnCyclicGraphs | wq-cli/src/load.rs:84-90 | When nothing else can go wrong, loading fails exactly if some route comes back to a script already on it, so repeats on separate branches are allowed |
| ScriptLoader.Loader.LoadScript | wq-cli/src/load.rs:76-117 | Terminates on every file graph; on success and on every error the loading set and the import stack are as on entry, and report and error are those of the recursive definition |
| ScriptLoader.Loader.EvalStreaming | wq-cli/src/load.rs:119-150 | The item loop, with its last value and its early exits, does what the recursive definition says |
| ScriptLoader.Loader.EvalItem | wqpl/src/session.rs:1113-1136 | One item: a shebang and blank code do nothing, code is evaluated, a directive is handed to the loader |
| ScriptLoader.Loader.EvalDirective | wq-cli/src/load.rs:152-183 | The four directives |
| ScriptLoader.Loader.LoadEmbeddedOrFile | wq-cli/src/load.rs:185-226 | An embedded script if the name is one, otherwise a warning and a file |
| ScriptLoader.Loader.LoadEmbedded | wq-cli/src/load.rs:192-211 | Runs once, under its own frame, and is registered only after success |
| ScriptLoader.Loader.LoadNested | wq-cli/src/load.rs:166-177 | The loader of its own, with a copy of the stack and the shared registry, leaves this loader's stack alone and hands over its warnings |
| ScriptLoader.LoadScript | wq-cli/src/load.rs:239-250 | A top-level load |
| ScriptLoader.EvalInlineWithLoad | wq-cli/src/load.rs:254-278 | An inline snippet is reported under the last thing a directive loaded |
| DapFraming.Server.PollRequest | wq-dap/src/server.rs:55-107 | The header loop and the content read: the payload, the end of the input or the error, and exactly what is left of the input |
| DapFraming.PollReadsFrame | wq-dap/src/server.rs:55-107 | Whatever a payload holds and whatever follows its frame, one poll returns the payload and consumes exactly the frame |
| DapFraming.LengthsMean | wq-dap/src/server.rs:78-89 | A length is read from digits, perhaps behind a plus sign, with any space around them, as long as it fits 64 bits |
| DapFraming.OtherLengthsFail | wq-dap/src/server.rs:82-88 | Any other value of a length is refused, with its line |
| DapFraming.OtherHeadersFail | wq-dap/src/server.rs:90-94 | A header of any other name is refused by that name, whatever its value |
| DapFraming.LinesWithoutColonFail | wq-dap/src/server.rs:96-100 | A line without a colon that is not blank is refused |
| DapFraming.BlankLinesMean | wq-dap/src/server.rs:70-75 | A line of spaces ends the headers |
| DapFraming.ServerOutput.Send | wq-dap/src/server.rs:140-161 | The number is used up in every case; a frame is written whole, or in part or not at all if a write fails, or not at all if serialization fails; and which error is returned, a failed flush included |
| DapFraming.EveryRunLeavesItsTrails | wq-dap/src/server.rs:118-161 | Any senders taking turns under the lock use one number for each send, and leave what each of them wrote, one behind the other |
| DapFraming.NumbersAreConsecutive | wq-dap/src/server.rs:140-159 | The numbers of the messages on the wire run without gaps exactly if none was sent after a send that lost its own number, to a serialization error or to a failed write |
| BrokenFrames.ReadsExactly | wq-dap/src/server.rs:55-107 | Whatever whole and broken frames are on the wire, reading to the end gives exactly the payloads of the whole ones, in order, exactly if every broken one is read over |
| BrokenFrames.SentIsRead | wq-dap/src/server.rs:55-161 | For every run of sends, whatever fails: the client reads exactly the messages whose whole frame was written, in order, and then the end of the input, exactly if every broken frame is read over; each message carries the payload and the number of its own send |
| BrokenFrames.NextIsReadIffReadOver | wq-dap/src/server.rs:55-107 | A whole frame behind the first bytes of another is read right exactly if those are none, or the whole length line and no more |
| BrokenFrames.BrokenFrameSwallows | wq-dap/src/server.rs:103-107 | Behind a frame broken off in its payload, one poll returns a payload made of it and of what follows, or fails if too little follows |
| BrokenFrames.GapAfterFailedWrite | wq-dap/src/server.rs:140-161 | A run of sends in which the first message the client reads carries number 2 |
| BrokenFrames.ReadsWhatNobodySent | wq-dap/src/server.rs:140-161 | A run of sends in which the client reads a payload nobody sent |
| HistoryWalk.EditState.Backup | wq-rl/src/edit.rs:162-165 | The line and the cursor are saved |
| HistoryWalk.EditState.Restore | wq-rl/src/edit.rs:167-173 | They come back |
| HistoryWalk.EditState.EditHistoryNext | wq-rl/src/edit.rs:759-795 | One step back or forward shows what the view shows |
| HistoryWalk.EditState.EditHistory | wq-rl/src/edit.rs:829-860 | So does a jump to the first entry or to the end |
| HistoryWalk.EditState.Perform | wq-rl/src/edit.rs:759-860 | Every run of steps, jumps and edits shows what the view shows |
| HistoryWalk.WalkShowsEntriesAndDraft | wq-rl/src/edit.rs:759-860 | Without edits the index stays in range, below the end the line is that entry with the cursor at its end, and at the end the line and the cursor are those the walk began with |
| HistoryWalk.ReturnsToTheLineLeft | wq-rl/src/edit.rs:759-860 | With edits anywhere in between, the end shows the line as it was last left there |
| HistoryWalk.EveryCommandShows | wq-rl/src/edit.rs:759-860 | After any commands, where one more command leads and what it shows: an edit, the entry or the draft it came to, or what was there if it moved nowhere |
| HistoryWalk.JumpsReachTheEnds | wq-rl/src/edit.rs:829-860 | A jump to the start shows the first entry, unless the walk was there with an edit, and a jump to the end the line as it was last left there |
| HistoryWalk.BackAndForth | wq-rl/src/edit.rs:759-795 | So many steps back and so many forward end at the draft exactly if the latter are as many as the former or as the entries |

## Left out

- History files: every write is taken to move the modification time, each save, append and load to be one
  atomic step under its lock, and I/O errors and invalid UTF-8 do not occur. Counters do not saturate.
- HistoryProtocol.EveryRunWritesWhatWasAppended: assumes lines without a final carriage return, which the
  format loses (`FinalCrIsLost`). The histories of the protocol share one fixed configuration.
- Case-insensitive history search, the prefix and substring tests behind `search_match`, and the SQLite history.
- The similarity ratios of `difflib` are arbitrary functions into the reals: their computation and
  floating-point rounding are not modelled.
- Quoting positions count characters, not bytes; the Windows, macOS and WebAssembly variants and the
  directory listing of `filename_complete` are not modelled.
- `check_bracket` and the cursor logic around the bracket search.
- SessionLifecycle: options are plain data (no getters that run code during the checks), core methods are
  named but not modelled, a throwing `session.free()` is not modelled, the work budget and its timing are
  left out, the core's pause counter does not saturate, and active calls may return in any order rather than only innermost first, which allows more
  runs than there are.
- Versions.PrintParsed: core numbers are ASCII, where the source's pattern also lets non-ASCII decimal
  digits follow the first one and reads them as numbers. Python's limit on the length of integers is left
  out as well.
- `workspace_version`, `update_cargo_manifest`, the remotes and the push commands of the release scripts.
- GitStatus.ChangedPaths: paths stay bytes; the decoding with surrogate escapes is not modelled.
- Loading: path canonicalisation, path arithmetic and the lookup of aliases are arbitrary functions, and
  the session an arbitrary function of the fragments it has run. Embedded scripts are taken to hold no
  directives, as the one shipped script does; one that loads itself would recurse without end, since it is
  registered only after success.
- The binding differences of a load report, and the post-mortem tokens carried along with its errors.
- DapFraming: payloads are opaque and already decoded (UTF-8 and JSON errors are not modelled), header lines
  are ASCII, payload lengths fit into 64 bits, sequence numbers do not overflow, and a payload that is cut short consumes the rest of the input.
  Bytes the buffered writer has taken count as on the wire, flushed or not; a poisoned lock is not modelled.
- HistoryWalk: `edit_history_search`, which saves no line, and undo, layout and refresh.
- HistoryWalk: histories other than the in-memory one, whose `get` may find nothing at an index in range.
