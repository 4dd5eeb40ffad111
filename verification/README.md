# rnx: a verified model

rnx is a Rune scripting environment: a REPL and notebook session, a reusable request server, child processes with
captured output, native operations that can be revoked, and the checks that guard its edges (forms, HTML, JSON, a
wire format, a formatter, a commit-history policy). This project models the protocols and transformations at its
core in Dafny and proves what they promise over every input and every run. `dafny verify dfyconfig.toml` checks it.

## Layout

- `Lifecycle`, `Registries`, `Slots`, `SlotInvocations`: pending operations stamped with a generation, and the
  reusable slots that serve requests on top of them.
- `StopProtocol`: a call that stops a worker which declares, submits and withdraws operations.
- `PanicHooks`: one process-wide panic hook shared by nested and overlapping catches on any number of threads.
- `FormatCaptures`, `Language`, `Prelude`, `SourceMaps`, `Numbering`: the session. Which bindings an input mentions,
  a small language to say what it means, the narrowed prelude and published delta, the map from generated text to
  typed text, retained units, and the numbers on the prompt.
- `JsonWalk`, `JsonPath`: the walk over a possibly cyclic value graph and the path a refusal prints.
- `Utf8`, `WebForms`, `HtmlMarkup`: percent decoding and forms (section 2.1 of RFC 3986, section 4 of RFC 3629), the
  HTML allowlist and escaping.
- `Wire`, `Framing`: the tag-length-value messages and their incremental reader.
- `Capture`: what is kept of a child's output and how it becomes text.
- `TokenFidelity`, `Layout`, `Trivia`, `LayoutPass`: the formatter's comma check, its comment scanner and layout edits,
  what may stand between two tokens, and the whole layout pass.
- `History`, `HistoryLaws`: the policy over commits, trees and record numbers, and the same rules said of commits alone.
- `Wrappers`, `Numerals`, `Search`, `Sorting`: results and options, written numbers, first occurrences, and a stable
  sort.

State that the source updates in place is a class whose methods are tied to a specification function; the lemmas are
about those functions and about whole runs of them.

## Results that are not what one would expect

Each has a concrete witness and the exact condition under which the promise holds.

- A `finish` revokes operations it was never told about once a destructor has panicked
  (`Lifecycle.FinishCanRevokeABystander`, `Lifecycle.FinishFailedIsExact`).
- A slot can be handed back without the operation keys its next request needs, because `healthy` does not look at
  them, and with its last generation, whose request is lost when it closes (`Slots.KeysCanRunOut`,
  `Slots.GenerationsCanRunOut`, `Slots.ReuseIsFreshExactly`).
- An input that returns early from the generated `main` can publish a binding without a name, or a name without a
  binding (`Prelude.ReturnPublishesUnnamed`, `Prelude.ReturnNamesUnpublished`, `Prelude.NamesAreKeys`). A full
  prelude would then fail every input, and the narrowed one fails exactly those that mention such a name
  (`Prelude.NarrowOutlivesFull`, `Prelude.FullNeedsEveryValue`, `Prelude.NarrowIsMended`).
- An input that returns early can overwrite a binding it never mentions (`Prelude.ReturnOverwritesUnmentioned`,
  `Prelude.UnmentionedIsKept`).
- An input that fails only because cleanup failed after it has already published (`Prelude.FailedCleanupPublishes`,
  `Prelude.FailureChangesNothing`).
- A panic hook installed while a catch is open reports the panics the catch should silence, and is gone when the last
  catch leaves (`PanicHooks.InstallInsideACatchIsLost`, `PanicHooks.HookIsShared`).
- A brace inside a format specification is read as a capture, unless it is doubled, followed at once by a colon or
  the last character (`FormatCaptures.FillCharacterIsFound`, `FormatCaptures.SilentExactly`).
- `unhex` reads a plus sign as a digit and accepts capitals (`Wire.UnhexReadsASign`, `Wire.HexUndoesUnhex`).
- Whether the incremental reader refuses can depend on how the stream was cut up, but only for a frame within 4094
  bytes of the limit (`Framing.RefusalDependsOnTheCut`, `Framing.OverfullExactly`, `Framing.OverfullNeedsALongFrame`).
- An import after the sequence cutoff can make record numbers jump (`History.ImportCanJump`,
  `History.AcceptedAlternates`).

Where the code and its documentation disagree the model follows the code: the comment in `src/platform.rs:601-603`
says that a constant bounds the stopping loop, and the loop has no bound; the comment in `src/session.rs:1662` says
that a two-digit escape is at most 0x7f, and the decoder accepts more; the comment in `src/session.rs:873-874` says
that an input leaves every binding it never mentions untouched, and an early return can overwrite one.

## Model

| member | source | states |
|---|---|---|
| Lifecycle.StampMeansPolledSinceBegin | src/lifecycle.rs:190-265 | Over every run, an operation carries the current generation's stamp exactly when the history polled it after the latest successful `begin`, whenever it was created. |
| Lifecycle.FinishFailedIsExact | src/lifecycle.rs:266-277 | `finish(true)` destroys exactly the live operations polled since the latest `begin`, unless a destructor panicked before or now, in which case it destroys all and retires the context; the condition is exact. |
| Lifecycle.FinishWithoutBeginRevokesNothing | src/lifecycle.rs:266-277 | A `finish` that is not failing, or has no open `begin`, destroys nothing exactly when no panic is on record or nothing is alive. |
| Lifecycle.FinishCanRevokeABystander | src/lifecycle.rs:266-277 | A run with no `begin` in which `finish(false)` destroys an operation nobody touched. |
| Lifecycle.ClearAndCloseLeaveNone | src/lifecycle.rs:278-294 | `clear` and `close` leave no operation registered, destroy every live future, and report a failure exactly when a destructor panicked. |
| Lifecycle.DestroyedForEver | src/lifecycle.rs:114-215 | Once a call destroys an operation's future, no later call of the run polls or destroys it again. |
| Lifecycle.PollAnswers | src/lifecycle.rs:190-215 | A live future answers as it is polled, and any other poll is cancelled; the poll destroys the future exactly when it ends or panics, unregisters it when it ends, and touches no other operation. |
| Lifecycle.PollDestroysExactly | src/lifecycle.rs:190-215 | Over every run a poll is cancelled exactly when the operation is not alive, and destroys exactly a live future that ends or panics. |
| Lifecycle.ReadyIsOver | src/lifecycle.rs:205-213 | Over every run, a future that was polled to its end is never polled again. |
| Lifecycle.TrackRegisters | src/lifecycle.rs:37-97 | A tracked future is alive and registered under the next key, unless the context is retired or out of keys; then it is dropped, with the reason and the record of its panic. |
| Lifecycle.DropDestroys | src/lifecycle.rs:151-183 | Dropping a handle unregisters its operation, destroys its future if it is still there, and touches nothing else. |
| Lifecycle.GenerationCounts | src/lifecycle.rs:250-277 | Over every run the generation is the number of successful calls of `begin`, and the context is active exactly while one of them is open. |
| Lifecycle.BeginAnswers | src/lifecycle.rs:250-265 | Over every run `begin` succeeds exactly when no destructor has panicked, the context is not retired and a generation is left; a refusal changes nothing and names the first of these. |
| Lifecycle.KeysAreNeverReused | src/lifecycle.rs:52-79 | Keys granted at any two points of a run are strictly increasing, across clears and failures. |
| Lifecycle.PanicIsSticky | src/lifecycle.rs:135-265 | A recorded destructor panic never changes afterwards and every later `begin` returns it. |
| Lifecycle.BlameNext | src/lifecycle.rs:114-127 | Revoking in key order blames the first destructor that panics and still reaches all the others. |
| Registries.Registry.Track | src/lifecycle.rs:33-97 | Registers a fresh owner under the next key, or refuses and drops the future, as the specification says. |
| Registries.Registry.Dispose | src/lifecycle.rs:151-168 | Takes an owner's future once, unregisters it and records a panic of its destructor. |
| Registries.Registry.Poll | src/lifecycle.rs:190-215 | Stamps, polls, and disposes a finished or retired operation: a live future answers as it is polled, one that ends is gone and unregistered, and an unregistered one is cancelled. |
| Registries.Registry.Revoke | src/lifecycle.rs:114-127 | Disposes every owner, or those of this generation, in ascending key order, whatever their destructors do. |
| Registries.Registry.Retire | src/lifecycle.rs:128-134 | Marks the context retired and revokes everything. |
| Registries.Registry.Begin | src/lifecycle.rs:250-265 | Opens a generation, or reports the failure, the retirement or the exhausted counter. |
| Registries.Registry.Finish | src/lifecycle.rs:266-277 | Ends the generation as the specification says and reports the recorded failure. |
| Registries.Registry.Clear | src/lifecycle.rs:278-287 | Revokes all and retires only on failure. |
| Registries.Registry.Close | src/lifecycle.rs:288-294 | Retires and revokes all. |
| Slots.ActKeepsSound | src/server.rs:565-669 | Every event of a request keeps the generation open exactly while the stage is begun, and retirement implies a recorded cleanup failure. |
| Slots.CloseHandsBackExactly | src/server.rs:671-705 | `close` hands the slot back exactly when nothing failed to clean up, no run future was leaked and a generation is left; what it hands back is reusable and empty, and otherwise it is retired with the first cleanup failure as the cause. |
| Slots.ReturnAnswers | src/server.rs:597-619 | A handler that returns reports its own result and has it remembered, unless a destructor has panicked before or now; then the recorded cleanup failure is reported and remembered instead. |
| Slots.CancelAnswers | src/server.rs:620-641 | A run future that is dropped leaves the cancellation remembered, unless a destructor has panicked before or now; then the recorded cleanup failure. |
| Slots.StartAnswers | src/server.rs:646-669 | The first poll of a run opens a generation, or reports and remembers why it cannot; a second run is refused and changes nothing. |
| Slots.TrackAnswers | src/lifecycle.rs:37-97 | An operation that is granted is the request's next and alive; one that is refused leaves the registry as it was. |
| Slots.PollOpAnswers | src/lifecycle.rs:190-215 | Polling the operation of some place in the request reaches that one and answers and destroys what that poll does. |
| Slots.DropOpAnswers | src/lifecycle.rs:151-183 | Dropping the handle of some place in the request destroys that operation and no other. |
| Slots.ServedSlotIsIdle | src/server.rs:679-705 | A slot handed back by any request is reusable and holds no operation of that request. |
| Slots.CompletedTells | src/server.rs:597-705 | What is handed back with a slot is what the request's own events say of its run: nothing if there was none, the handler's result if it returned, and a cancellation if its future was dropped. |
| Slots.CompletedExactly | src/server.rs:671-714 | A request gets its slot handed back exactly when it closes, left no run future behind, no cleanup failed and a generation is left; otherwise it is told the first cleanup failure, or that the lifecycle failed. |
| Slots.EarlierHandlesAreCancelled | src/lifecycle.rs:190-215 | Whatever a request has done so far, a handle kept from an earlier request is cancelled when polled, and neither polling nor dropping it changes anything. |
| Slots.ReuseIsFresh | src/server.rs:513-714 | Any request, played by a client that chooses each event from everything it has seen, reports on a handed-back slot exactly what it reports on a fresh owner, while keys and generations last. |
| Slots.ExhaustionShows | src/lifecycle.rs:59-69 | When the keys run out the client sees a difference from a fresh owner. |
| Slots.ReuseIsFreshExactly | src/server.rs:513-517 | On any idle slot a request reports what it reports on a fresh owner if and only if the slot has the keys it needs and, unless the request never closes or loses a fresh owner too, a generation left after it. |
| Slots.KeysCanRunOut | src/lifecycle.rs:59-69 | A slot whose first request was granted every key is handed back, and its next request is refused an operation a fresh owner grants. |
| Slots.GenerationsCanRunOut | src/server.rs:679-705 | A slot that has served enough runs is handed back once more and loses a run a fresh owner completes, with every key to spare. |
| Slots.SlotIsolatesRequests | src/server.rs:513-714 | A whole sequence of requests on one slot, polling and dropping handles kept from earlier ones as they like, reports what each reports on an owner of its own, up to the one that retires the slot. |
| SlotInvocations.SlotInvocation.Start | src/server.rs:646-669 | The first poll of a run begins the generation, or ends the invocation with the refusal; a second run is refused. |
| SlotInvocations.SlotInvocation.End | src/server.rs:597-641 | Ends the generation once, as failed or not, and remembers what it was given, or the cleanup failure on record. |
| SlotInvocations.SlotInvocation.Finish | src/server.rs:597-619 | The guard ends the generation once and reports and remembers the handler's result, or the cleanup failure on record. |
| SlotInvocations.SlotInvocation.DropGuard | src/server.rs:620-641 | A dropped run future finishes the generation as failed and is remembered as cancelled, or with the cleanup failure on record. |
| SlotInvocations.SlotInvocation.Close | src/server.rs:679-705 | Clears the registry and hands it back or retires it, as `Slots.Closed` says. |
| SlotInvocations.SlotInvocation.Abandon | src/server.rs:706-714 | Dropping an unclosed invocation retires its slot with nothing registered. |
| SlotInvocations.Prepare | src/server.rs:524-560 | Refuses a budget outside 1 to the largest count and then returns the slot only if it is healthy. |
| StopProtocol.Pipe.Begin | src/platform.rs:664-671 | Declares an operation unless the worker was stopped, in one step. |
| StopProtocol.Pipe.DropInCall | src/platform.rs:645-649 | The guard's drop withdraws the handle. |
| StopProtocol.Pipe.AskOnce | src/platform.rs:690-717 | One turn of `stop`: the handle to cancel, or the answer. |
| StopProtocol.AlwaysSafe | src/platform.rs:643-717 | In every interleaving a handle is published exactly while its owner is inside an operation on that open stream. |
| StopProtocol.CancelsOnlyAnOwnedHandle | src/platform.rs:690-717 | `cancel` is only ever applied to the open stream of a worker that is still inside that operation. |
| StopProtocol.StoppedForGood | src/platform.rs:664-717 | After a stop's first locked step no operation is declared, and once nothing is published nothing ever is again. |
| StopProtocol.StopMeansStopped | src/platform.rs:624-717 | `stop` answers `Reached` exactly when an operation was declared at its first locked step, and from its return on nothing is published. |
| StopProtocol.StopTerminates | src/platform.rs:690-717 | Under any fair schedule a call that is asking eventually returns, however late the operation is submitted. |
| StopProtocol.EveryStopIsAnswered | src/platform.rs:690-717 | In every fair endless run every stopping call gets its answer. |
| StopProtocol.AskingOnceLeavesAnOperation | src/platform.rs:589-603 | A variant that asks once has a fair run that leaves a submitted operation nobody ever cancels. |
| StopProtocol.AskingAgainReaches | src/platform.rs:589-603 | Fair runs exist, and one goes through the same gap and still ends with the operation over and the answer `Reached`. |
| PanicHooks.HookTable.Enter | src/extensions.rs:213-227 | The first catch saves the process hook and installs the dispatcher; every catch raises the count and its thread's quiet counter. |
| PanicHooks.HookTable.Leave | src/extensions.rs:229-241 | The last catch puts back the saved hook, or one that forwards to it when it is still shared. |
| PanicHooks.AfterKeepsGood | src/extensions.rs:191-243 | Every move of any thread keeps the table, the counters and the lock consistent. |
| PanicHooks.AlwaysGood | src/extensions.rs:191-243 | Consistency holds in every reachable state. |
| PanicHooks.HookIsShared | src/extensions.rs:191-243 | The count is the sum of the quiet counters and no adapter code runs under the lock. With no catch open the hook is the last one installed outside any catch, whatever was installed inside; while catches are open the dispatcher stands and a panic is silenced exactly on threads inside a catch, unless a hook was installed inside, which then reports every panic. |
| PanicHooks.InstallInsideACatchIsLost | src/extensions.rs:229-241 | A run in which a hook installed while a catch is open reports a panic on a thread inside the catch, and is gone after the last catch leaves. |
| PanicHooks.HolderGoesOn | src/extensions.rs:229-241 | In every reachable state the thread holding the lock can run its locked section: leaving finds a saved hook and takes no counter below zero. |
| PanicHooks.WaitingEndsWithoutAdapterCode | src/extensions.rs:202-243 | A thread waiting for the lock can take it at once or right after the one locked section that its holder can always run, whatever every builder does. |
| FormatCaptures.Decode | src/session.rs:1646-1690 | The decoding loop computes `Decoded`. |
| FormatCaptures.DecodeUndoesSpelling | src/session.rs:1646-1690 | Decoding gives back the text for every choice of supported spelling of each of its characters. |
| FormatCaptures.DecodedIsSpelled | src/session.rs:1646-1690 | Whatever decodes is written in supported spellings of the text it decodes to, so nothing else decodes. |
| FormatCaptures.FormatCapturesOf | src/session.rs:1696-1718 | The scanning loop computes `Captures` and ends on every text. |
| FormatCaptures.CapturesExactly | src/session.rs:1696-1718 | What the scan finds in any text, brace by brace: doubled braces are passed over, and after any other a name runs to the first colon or closing brace, or to the end. |
| FormatCaptures.ScanFindsTemplate | src/session.rs:1696-1718 | On a rendered template the scan finds its captured names, in order, and what its format specifications look like they capture. |
| FormatCaptures.SilentExactly | src/session.rs:1696-1718 | The scan finds nothing in a format specification exactly when every brace in it is doubled, followed at once by a colon, or its last character. |
| FormatCaptures.ScanFindsEveryCapture | src/session.rs:1646-1718 | Decoding then scanning finds every captured name, and exactly the captured names, in order, if and only if every format specification is silent in that sense. |
| FormatCaptures.FillCharacterIsFound | src/session.rs:1696-1718 | A brace used as a fill character is reported as a capture. |
| Language.EvalFramed | src/session.rs:768-826 | Bindings an expression never writes down neither change its value, effects and handles nor are changed by it, through closures, loops, calls and early returns. |
| Language.ResolvesFramed | src/session.rs:905-942 | Nor do they change whether it compiles. |
| Language.OnlyReturnsReturn | src/session.rs:873-893 | Only an expression that holds a `return` of its own leaves `main` early. |
| Prelude.MentionedIn | src/session.rs:1591-1639 | The token loop computes `Mentioned`: identifiers, captures of decoded literals, everything for a literal it cannot decode, and nothing past a lexing error. |
| Prelude.MentionedIsSound | src/session.rs:1584-1639 | Every published name an input writes down, in code or inside a format literal, is mentioned. |
| Prelude.MentionedExactly | src/session.rs:1591-1639 | A published name is mentioned exactly when some token before a lexing error is that identifier, a literal that captures it, or a literal that cannot be decoded. |
| Prelude.CoveringIsFull | src/session.rs:768-893 | Restoring any set of published names that covers what the input writes down gives the same outcome, bindings, handles and heap as restoring all. |
| Prelude.NarrowIsFull | src/session.rs:768-957 | While every name has a value, running an input with only the mentioned bindings and merging its delta is the same as restoring and republishing every binding. |
| Prelude.FullNeedsEveryValue | src/session.rs:943-957 | With any name that has no value, restoring every binding fails every input and changes nothing. |
| Prelude.NarrowIsMended | src/session.rs:768-957 | In every session state the narrowed prelude is the full one on the names that have a value, and an input that mentions another name fails and changes nothing. |
| Prelude.SessionsAgree | src/session.rs:768-957 | Over any session of inputs and resets from any state, early returns included, the narrowed prelude gives the outcomes, bindings, handles and heap of one that restores every name that has a value. |
| Prelude.ResetStartsAnew | src/session.rs:507-519 | After a reset a session answers as a new one does. |
| Prelude.ReturnFreeSessionsAgree | src/session.rs:768-957 | While no input returns early that is the full prelude, and the names stay the keys of the state. |
| Prelude.NamesAreKeys | src/session.rs:865-893 | After a success the names are the keys of the state, unless the input returned early; then exactly when the returned object names every new binding and nothing unknown. |
| Prelude.ReturnPublishesUnnamed | src/session.rs:865-904 | An early return publishes a binding that has no name. |
| Prelude.ReturnNamesUnpublished | src/session.rs:865-904 | An early return names a binding that is never published. |
| Prelude.NarrowOutlivesFull | src/session.rs:943-957 | A state with a name that has no value, and an input that runs with the narrowed prelude and fails with the full one. |
| Prelude.PublishesTheFinalValues | src/session.rs:768-893 | In any session state a success publishes what a run with every value restored leaves: its result, its heap, for every name, old or new, the value it has at the end, and for every declared name its last declaration; an input that returns early publishes the object it returns instead, and its result and heap. |
| Prelude.GatheredExactly | src/session.rs:690-767 | The statements are accepted exactly when none is a reserved name, an unsupported item or a type whose source differs from the declaration standing there; then each declared name keeps its last declaration in the input and every other name its old one. |
| Prelude.SucceedsExactly | src/session.rs:655-879 | An input succeeds exactly when it gets to run and the run ends or returns a pair led by an object; one that fails leaves the session as it was but for what the run did to shared values. |
| Prelude.UnmentionedIsKept | src/session.rs:881-904 | A binding the input neither mentions nor declares keeps its value and handle if and only if the input does not succeed by returning early an object that gives that binding another value; without a `return` of its own it always does. |
| Prelude.ReturnOverwritesUnmentioned | src/session.rs:881-904 | A session reached from the start and an input that never mentions a binding, succeeds, and leaves it with another value. |
| Prelude.FailureChangesNothing | src/session.rs:612-654 | A failing input changes no name, declaration or binding, unless cleanup failed after it had published; then it leaves what a success would. |
| Prelude.FailedCleanupPublishes | src/session.rs:612-627 | An input reported as failed that has published its binding. |
| Prelude.Session.Merge | src/session.rs:886-904 | Inserting a delta entry by entry gives the state overridden by the delta. |
| Prelude.Session.Gather | src/session.rs:691-767 | The statement loop accepts exactly the inputs of which no statement is refused, and collects each name's last declaration and the names of the bindings. |
| Prelude.Session.EvalInner | src/session.rs:656-893 | One input moves the session to the specification's narrowed result. |
| Prelude.Session.Eval | src/session.rs:612-654 | One input with its lifecycle moves the session to `Evaluated`. |
| Prelude.Session.Clear | src/session.rs:507-519 | A reset empties declarations, names and state. |
| SourceMaps.Generated.AddRaw | src/session.rs:329-331 | Appends text that no segment covers. |
| SourceMaps.Generated.AddUser | src/session.rs:332-341 | Appends copied text and the segment that covers exactly it. |
| SourceMaps.MapIsOrdered | src/session.rs:294-341 | Segments are in order and never overlap. |
| SourceMaps.LocateIsExact | src/session.rs:306-341 | Every character of a copied piece is located at the character it came from, and every other character nowhere. |
| SourceMaps.LocatedIsTheSame | src/session.rs:306-311 | In a faithful map a located character is the same character of the retained input, or the added semicolon at its segment's end, or the wrapper's newline past the input's end. |
| SourceMaps.SourceIsCopied | src/session.rs:694-700 | A statement's slice of the wrapped input is a copy of the input, plus the wrapper's newline for the last one. |
| SourceMaps.ItemIsExact | src/session.rs:724-748 | A retained declaration, trimmed, is an exact copy at its recorded offset, with nothing added. |
| SourceMaps.AnalysisIsFaithful | src/session.rs:690-767 | Everything the statement loop keeps is a copy of this input or of an earlier one. |
| SourceMaps.AnalysedExactly | src/session.rs:690-767 | An input without unsupported statements is accepted: exactly its bindings, statements with a semicolon and expressions that are not last are kept, in order, the last kind with a semicolon; a final expression is the result; each name stands for its last item. |
| SourceMaps.GeneratedText | src/session.rs:798-826 | The text generated for an accepted input is its declarations, the header, the restored bindings, exactly the kept statements in order, and the final expression as the result. |
| SourceMaps.LineStands | src/session.rs:800-815 | Each of those lines stands in the text, in order. |
| SourceMaps.AddDeclarations | src/session.rs:800-803 | The loop adds each retained declaration, in order, as a copy of the input it came from. |
| SourceMaps.AddPrelude | src/session.rs:809-811 | The loop restores each referenced binding in generated text that maps nowhere. |
| SourceMaps.AddStatements | src/session.rs:812-815 | The loop adds each statement, in order, as a copy of this input. |
| SourceMaps.Build | src/session.rs:798-826 | The building loops produce exactly the specified pieces, for both wrappers. |
| SourceMaps.BuildIsFaithful | src/session.rs:798-826 | The generated source's map is faithful to the retained inputs, declarations from earlier inputs included. |
| SourceMaps.MoreInputsKeepCopies | src/session.rs:645-646 | Admitting more inputs keeps every map faithful. |
| SourceMaps.RetainedExactly | src/session.rs:854-864 | Over any run, the retained entries are exactly the units registered since the last reset and alive at every registration since, each with its own map. |
| SourceMaps.ReachableKeepsItsMap | src/session.rs:854-864 | Where a dead unit stays dead, a unit registered since the last reset is found with its own map, and no other, exactly while it is alive. |
| SourceMaps.Session.Analyze | src/session.rs:690-767 | The statement loop accepts exactly the inputs whose statements are supported, and keeps exactly the statements, the result and the declarations that they call for. |
| SourceMaps.Session.Input | src/session.rs:643-893 | Every admitted input, however it ends, leaves every retained map and declaration faithful to the retained inputs. |
| SourceMaps.Session.Register | src/session.rs:854-864 | Drops the entries nothing can call and adds the new one. |
| SourceMaps.Session.Reset | src/session.rs:507-519 | A reset drops inputs, declarations and maps together. |
| Numbering.PromptIsNext | src/session.rs:456-474 | The number on the prompt is the position the next admitted input receives, in the current numbering. |
| Numbering.PromptIsKept | src/session.rs:454-474 | However many inputs are refused first and whatever is admitted or renumbered later, the input admitted at a prompt keeps the number it showed. |
| Numbering.NumberingIsForEver | src/session.rs:459-474 | Over any run an input's numbering and position never change. |
| Numbering.LabelsDiffer | src/session.rs:462-474 | No two inputs share a label, also with repeated empty renumberings. |
| Numbering.LabelTellsTheHistory | src/session.rs:456-474 | Over any session an input's label is how many inputs its numbering had with it, and the place of that numbering when another has followed. |
| Numbering.ShownLabelIsUnique | src/session.rs:45-53 | A displayed label determines the label. |
| Numbering.ShownLabelsDiffer | src/session.rs:45-53 | No two inputs are ever displayed alike. |
| Numbering.Session.Admit | src/session.rs:633-647 | An input is refused exactly when memory is over the ceiling or its encoding over the cap, and then leaves everything alone; an admitted one gets the number the prompt showed. |
| Numbering.Session.Renumber | src/session.rs:459-461 | A new numbering starts at one. |
| JsonWalk.AcceptsExactly | src/json.rs:142-276 | On any finite, possibly cyclic and shared graph the walk accepts exactly when the unfolding from the root is finite, at most 64 levels high and holds only serializable values. |
| JsonWalk.RefusalIsJustified | src/json.rs:142-276 | A refusal's path leads from the root, past values that all fit, to the first value that does not: unserializable, too deep, or really inside itself, so shared data is never called a cycle. |
| JsonWalk.Walker.Walk | src/json.rs:142-228 | The walk ends, answers as specified, and leaves both stacks as they were on every exit. |
| JsonWalk.Walker.Descend | src/json.rs:247-276 | Descending into a container pushes and pops the active stack around its children. |
| JsonPath.WriteWhereItIs | src/json.rs:95-112 | The loop writes `WhereItIs`. |
| JsonPath.ReadUndoesWrite | src/json.rs:83-112 | A written step is read back whole from in front of any other. |
| JsonPath.WrittenPathIsUnique | src/json.rs:89-112 | Two different paths are never printed alike, whatever their keys contain. |
| JsonPath.StepIsDotted | src/json.rs:83-112 | A key is written after a dot exactly when it is a plain identifier, and quoted in brackets otherwise. |
| JsonPath.DocumentedPaths | src/json.rs:89-94 | The documented examples: a key with a dot in it is no nesting, and a key of digits no index. |
| Utf8.ValidIsWellFormed | src/web.rs:94-118 | The octet grammar of section 4 of RFC 3629 accepts exactly the encodings of section 3. |
| Utf8.CharIsScalar | src/web.rs:98-116 | The octets of one character give a scalar value that encodes back to them. |
| Utf8.ScalarIsChar | src/web.rs:98-116 | Every scalar value's encoding is the octets of one character. |
| Utf8.ValidUpToIsAPrefix | src/host.rs:1048-1064 | The valid prefix is valid, and whole exactly when the text is. |
| Utf8.ValidUpToIsLongest | src/host.rs:1048-1064 | No longer prefix is valid. |
| Utf8.IncompleteBeginsAChar | src/host.rs:1048-1064 | The incomplete-end test holds exactly of a proper beginning of a character, of at most three bytes. |
| Utf8.ByteLenIsEncoded | src/session.rs:639-639 | The length of a text in bytes is that of its encoding. |
| WebForms.PercentUndoesSpelling | src/web.rs:75-92 | Percent decoding undoes every way to write a byte string, in either case, with plus for space where it applies and a percent sign for itself where no two digits follow. |
| WebForms.EveryComponentIsSpelled | src/web.rs:75-92 | Every component is a spelling of what it decodes to, so decoding is determined. |
| WebForms.PairIsSplit | src/web.rs:149-149 | A pair is split at its first equals sign. |
| WebForms.PairsAreJoined | src/web.rs:141-148 | A body is its pairs with ampersands between them, and only an empty body has none. |
| WebForms.PairReadsBack | src/web.rs:149-172 | Whatever is written as the name and the value of a pair, with plus signs for spaces, is what is read. |
| WebForms.Decoded.Next | src/web.rs:79-92 | Each step yields the next decoded byte and keeps the rest. |
| WebForms.DecodedLen | src/web.rs:95-118 | The streaming check succeeds exactly when the decoded bytes are well-formed UTF-8 and returns their exact length, at most the input's. |
| WebForms.Decode | src/web.rs:119-127 | Decoding returns the decoded bytes exactly when they are well-formed. |
| WebForms.SplitSplits | src/web.rs:141-149 | Splitting is what joining undoes. |
| WebForms.PairLength | src/web.rs:149-157 | Both components of a pair are checked and what they decode to never exceeds the pair. |
| WebForms.FirstPass | src/web.rs:147-158 | The first pass accepts exactly when every component decodes, and its bound on the decoded total is unreachable. |
| WebForms.SecondPass | src/web.rs:159-172 | After the first pass the second never fails and the first occurrence of a name wins. |
| WebForms.Form | src/web.rs:137-175 | A form is accepted exactly within the bounds and when every component decodes; each refusal has its exact cause and the result is the first-wins map. |
| WebForms.FirstWinsIsUnique | src/web.rs:159-172 | The first-wins rule determines the form. |
| HtmlMarkup.AcceptsExactlyTheGrammar | src/present.rs:120-172 | The stack machine accepts exactly the renderings of allowed text, the five entities and balanced attribute-free allowlisted tags nested at most eight deep. |
| HtmlMarkup.HtmlAllowed | src/present.rs:120-172 | The loop accepts exactly that grammar within 16,384 bytes. |
| HtmlMarkup.UnescapeUndoesEscape | src/web.rs:33-61 | Escaped text unescapes to the original. |
| HtmlMarkup.EscapedIsInert | src/web.rs:33-61 | Escaped text holds no angle bracket and no quote, and every ampersand in it begins one of the five entities. |
| HtmlMarkup.EscapedIsAccepted | src/web.rs:33-61 | Escaped text is accepted by the machine exactly when the text has no control or bidirectional character. |
| HtmlMarkup.EscapedPassesTheAllowlist | src/present.rs:120-172 | Escaped text passes the allowlist exactly when it also fits the bound. |
| HtmlMarkup.EscapeChecked | src/web.rs:43-61 | Escaping is refused exactly when the input or the output is over the bound; otherwise the output is inert and unescapes to the input. |
| Wire.Encode | src/dep_wire.rs:7-23 | Encoding succeeds exactly for known tags within the limit and writes the frame. |
| Wire.Decode | src/dep_wire.rs:24-51 | The decoding loop computes `DecodeBody`, with its errors. |
| Wire.EncodedDecodesToItself | src/dep_wire.rs:7-51 | Every encodable message of a known kind decodes to itself, and of any other kind is refused. |
| Wire.DecodedEncodesAgain | src/dep_wire.rs:7-51 | Every body that decodes encodes again to the same length and decodes to the same message, whatever order its fields came in. |
| Wire.AnyOrderDecodes | src/dep_wire.rs:24-51 | A message is read from its fields in any order. |
| Wire.FieldsReadTill | src/dep_wire.rs:30-50 | Every body of fields is a list of good fields and then nothing, or the first place that cannot be read, which gives the error. |
| Wire.BodyRefusedExactly | src/dep_wire.rs:24-30 | A body is refused for its length or version exactly when they are wrong, and then for an unknown kind. |
| Wire.WrittenInOrder | src/dep_wire.rs:7-23 | A message is written with exactly its fields, in ascending order. |
| Wire.Be32IsNetworkOrder | src/dep_wire.rs:17-20 | Lengths are written in network order. |
| Wire.ReadUndoesFrame | src/dep_wire.rs:52-62 | A written frame is read back whole and nothing after it is touched. |
| Wire.ReadsExactly | src/dep_wire.rs:52-62 | A stream is read exactly when it begins with the length of a body that decodes, and that body. |
| Wire.ReadRefusesExactly | src/dep_wire.rs:52-62 | A length out of range is refused, and otherwise a stream that ends too early. |
| Wire.UnhexUndoesHex | src/dep_wire.rs:63-88 | Hexadecimal text reads back to its bytes. |
| Wire.HexUndoesUnhex | src/dep_wire.rs:63-88 | What reads is what `hex` writes exactly when it is in lower-case digits. |
| Wire.UnhexReadsExactly | src/dep_wire.rs:72-88 | Pairs are read exactly when each is two digits, or a plus sign and a digit, and this is their value. |
| Wire.UnhexReadsASign | src/dep_wire.rs:72-88 | A plus sign reads as a leading zero. |
| Wire.CapsuleRoundTrip | src/dep_wire.rs:89-98 | An association survives the handover exactly when it has the six fields and its frame fits. |
| Wire.CapsuleReadsExactly | src/dep_wire.rs:89-98 | A capsule is read exactly from the hexadecimal of one whole association frame with the six fields and nothing after it. |
| Framing.ReceiveAgreesWithRead | src/dep_transition.rs:159-189 | However a stream is cut up, an answer is the one a sequential read gives, with exactly the remaining bytes left and never more than the limit and four buffered. |
| Framing.ReceivesExactly | src/dep_transition.rs:159-189 | What the loop answers at the first turn where it does anything but take in bytes: stopped, enough, end of stream, failure or overfull; without such a turn it has no answer. |
| Framing.ClosedMeansIncomplete | src/dep_transition.rs:176-177 | The end of the stream is reported only when what was read is not a whole frame. |
| Framing.OverfullExactly | src/dep_transition.rs:178-183 | Over every sequence of turns, stops and closed or failing sockets included, the reader gives up on its buffer exactly when the loop reaches a turn whose read overfills it while the frame is still incomplete. |
| Framing.OverfullNeedsALongFrame | src/dep_transition.rs:174-183 | Read at most 4096 bytes at a time, the buffer is overfilled only when the frame announces at least the limit less 4094 bytes. |
| Framing.CuttingMatters | src/dep_transition.rs:174-183 | For every stream that starts with such a frame and has enough after it, one cut into such chunks is refused and another gets the answer of the frame. |
| Framing.RefusalDependsOnTheCut | src/dep_transition.rs:174-183 | A full-sized message and one more byte: cut one way it is refused, cut another way it is delivered. |
| FrameReader.Helper.Receive | src/dep_transition.rs:159-189 | The loop answers as specified and keeps the unread bytes. |
| Capture.Capture | src/host.rs:481-586 | For every sequence of reads, interrupts, stops and deadlines the capture is the first 2 MiB read, marked truncated exactly when more was read, and the other marks say how it ended. |
| Capture.UnmarkedIsWhole | src/host.rs:481-586 | A capture is a prefix of the stream, and with no mark set the whole stream. |
| Capture.EndsExactly | src/host.rs:505-586 | The first turn that does not go on ends the capture, cut short by the call, at the end of the stream, or unreadable when a read fails on its own; everything read before it is kept. |
| Capture.DecodeExactly | src/host.rs:1048-1064 | Decoding keeps every byte or drops one incomplete final character of at most three bytes from a capture that was stopped and not unreadable; nothing else decodes, and an error is where the longest text ends. |
| Capture.PrefixOfText | src/host.rs:1048-1064 | Cutting text anywhere leaves text, or text and the beginning of one character. |
| Capture.TextStreamsDecode | src/host.rs:1048-1064 | Every readable capture of a stream of text decodes to a prefix of it. |
| TokenFidelity.InsertedCommas | src/source_fmt.rs:156-175 | Greedy matching succeeds exactly when the original list is the rendered list with some commas removed, and returns the spans of such commas. |
| TokenFidelity.GreedyIsComplete | src/source_fmt.rs:156-175 | Whatever choice of commas explains the original, the greedy one exists. |
| TokenFidelity.DeleteSpans | src/source_fmt.rs:193-197 | Deleting spans from the last to the first leaves exactly the text between them. |
| TokenFidelity.RemoveCommas | src/source_fmt.rs:193-197 | After the deletion the original tokens stand in the text, in order, and one character is gone for each comma. |
| Layout.BlockEndCloses | src/source_fmt.rs:86-107 | A block comment ends with its own closing mark, however deeply others are nested in it. |
| Layout.BlockComment | src/source_fmt.rs:86-107 | The depth-counting loop computes `BlockEnd`. |
| Layout.GapComments | src/source_fmt.rs:79-122 | The loop over a gap computes `GapSpans`, with its errors. |
| Layout.GapAccounts | src/source_fmt.rs:79-122 | An accepted gap is white space and comments, and those comments are in order. |
| Layout.Comments | src/source_fmt.rs:66-127 | The loop over the tokens computes `CommentsOf`, with its errors. |
| Layout.CommentsAccount | src/source_fmt.rs:66-127 | When the scan succeeds, tokens and comments are in order and apart, and every other character is white space. |
| Trivia.BlockIsRead | src/source_fmt.rs:86-107 | A block comment ends exactly where its opening and closing marks, read from the left, first balance. |
| Trivia.GapReadTill | src/source_fmt.rs:77-122 | Every gap is filled with line comments, block comments and white space, which are found, up to its end or up to the first place where none of them stands, which gives the error. |
| Trivia.FilledIsRead | src/source_fmt.rs:77-122 | A gap so filled is accepted and its comments are what is found. |
| Trivia.CommentsExactly | src/source_fmt.rs:66-127 | The scan succeeds exactly when the tokens are in order and every gap is good, and finds exactly the comments of the gaps. |
| Layout.LastIsEnough | src/source_fmt.rs:239-246 | Looking at the last range that starts before a line is enough to know whether the line starts inside one. |
| Layout.IndentKeepsWidth | src/source_fmt.rs:247-251 | The text written for an indentation takes its width, at four columns to a tab, in as many tabs as it holds and then at most three spaces. |
| Layout.IndentationEdits | src/source_fmt.rs:234-253 | The loop over the lines computes `IndentsFrom`. |
| Layout.IndentsExactly | src/source_fmt.rs:228-253 | Exactly the lines with four or more leading spaces that do not start inside a token or comment are re-indented. |
| Layout.GapEdits | src/source_fmt.rs:207-227 | The loop over the gaps computes `GapEditsOf`. |
| Layout.GapEditsBlank | src/source_fmt.rs:207-227 | Every gap edit replaces white space at the end of a function by one blank line. |
| Layout.GapEditsExactly | src/source_fmt.rs:207-227 | Exactly the gaps with only white space before the line of their first item are blanked, from the end of the function to that line. |
| Sorting.SortedKeeps | src/source_fmt.rs:233-254 | Sorting by start keeps what is sorted, for the protected ranges and for the edits. |
| Sorting.SortedSorts | src/source_fmt.rs:233-254 | Sorting orders by start. |
| Layout.Apply | src/source_fmt.rs:254-266 | The edit loop succeeds exactly when the sorted edits are disjoint, and then replaces those ranges and nothing else. |
| Layout.AppliedWrites | src/source_fmt.rs:255-266 | The new text of each edit stands where the edits before it have moved its place. |
| Layout.AppliedKeeps | src/source_fmt.rs:255-266 | Every character no edit replaces stands where the edits before it have moved its place. |
| Layout.AppliedLength | src/source_fmt.rs:255-266 | There is nothing else in the result. |
| Layout.EditsKeepNonSpace | src/source_fmt.rs:255-266 | White-space edits keep every other character, in order. |
| Layout.EditsKeepTokens | src/source_fmt.rs:228-266 | Tokens and comments that the edits stay clear of stand in the result, in order and unchanged. |
| LayoutPass.ProtectedStands | src/source_fmt.rs:228-233 | The tokens and the comments the scan found, sorted by start, stand in the text in order and apart, and none is lost. |
| LayoutPass.DisjointUnlessTangled | src/source_fmt.rs:207-266 | No two edits of a pass overlap exactly when no gap it blanks holds a line that starts with four or more spaces. |
| LayoutPass.PassEditsExactly | src/source_fmt.rs:207-253 | A pass edits exactly the gaps it can blank and the indentation that does not start inside a token or comment. |
| LayoutPass.LayOutAll | src/source_fmt.rs:207-266 | The whole pass succeeds exactly when only comments and white space stand between the tokens and no gap it blanks holds such a line; then exactly its edits are made, every token and comment stands in the result, in order and unchanged, and nothing but white space was exchanged. |
| History.Walk.Chain | ci/commit_subjects.py:105-112 | Metadata, the first-parent chain and the import proof. |
| History.Walk.Sequence | ci/commit_subjects.py:116-128 | After the cutoff plans and implementations alternate, and a plan takes the next number. |
| History.Walk.Record | ci/commit_subjects.py:145-158 | A plan is new and changes exactly its documents; an implementation has a plan, is the only one, and changes no other record's documents. |
| History.Walk.Commit | ci/commit_subjects.py:104-168 | One turn of the loop accepts exactly the acceptable commits and moves to the specified state. |
| History.Segment | ci/commit_subjects.py:92-170 | The loop accepts exactly the histories that follow every rule to the head. |
| HistoryLaws.AcceptedExactly | ci/commit_subjects.py:92-170 | A history is accepted if and only if every commit keeps every rule, said of the commits and trees alone: chain and import, sequence and number, documents and status, withdrawal, plans, implementations, and unique decisions; and the plans are its plans. |
| HistoryLaws.LawfulIsChecked | ci/commit_subjects.py:104-168 | One turn of the loop accepts exactly a commit that keeps every rule. |
| History.OthersAreKept | ci/commit_subjects.py:84-158 | No accepted commit, an import included, removes or alters another record's documents, and only an import adds decisions of other records. |
| History.DocumentsAreKept | ci/commit_subjects.py:98-170 | Over any accepted history a document stays as it is until a commit of its own record, and an imported one for ever. |
| History.OnePlanEach | ci/commit_subjects.py:145-158 | In any accepted segment every implementation has exactly one plan, before it, and no record is planned or implemented twice. |
| History.AcceptedAlternates | ci/commit_subjects.py:116-128 | What is accepted after the cutoff is plan n, implementation n, plan n + 1 and so on from the next free number, with at most a plan left over, exactly when every import there fits; with no import it always is. |
| History.AfterTheCutoff | ci/commit_subjects.py:98-170 | The same law from the start of a segment that passes the cutoff. |
| History.ImportIsImplementation | ci/commit_subjects.py:84-158 | An accepted import is always an implementation. |
| History.ImportCanJump | ci/commit_subjects.py:108-128 | An accepted history in which an import makes the numbers jump from 206 to 301. |

## Left out

- The Rune compiler, virtual machine and formatter are not part of this model: tokens, spans and parse results are
  inputs with the properties the parser promises (`SourceMaps.WellParsed`, `Prelude.FaithfulLiteral`), and `Language`
  stands for the language.
- Instructions spent by the prelude itself: a budget counts the input's own steps, so the narrowed and the full
  prelude are compared on what the input does.
- Awaiting, `?`, destructuring patterns, user macros and interruption inside a session input.
- The waits between the turns of `stop`: its loop is modelled by its turns and their interleaving.
- Polls that interleave with `finish`, `clear` or `close`: a poll is one step, and a destructor may panic but does not
  call back into a live registry.
- The values carried in a request's arguments: dropping one that holds an operation is an explicit event.
- A hook installed by other code in the middle of a locked section of `PanicHooks`, between its taking and its setting
  of the hook.
- The request pool, the HTTP client, and a debug assertion in `close`; its release behaviour is modelled.
- Offsets are counted in characters in `SourceMaps`, `TokenFidelity`, `Layout` and `LayoutPass`, where the source
  counts bytes; every slice is taken at character boundaries.
- Re-lexing and re-parsing the formatted text, and the idempotence check of `format`.
- SourceMaps.Session.Analyze: a statement refused for its name or its changed type is one of the unsupported kind here;
  which those are is stated by `Prelude.GatheredExactly`.
- History.Walk.Chain: commit identity, subject and signature rules are one flag of a commit.
- Operating-system calls, files, processes, time, terminal editing, completion, help and settings.
- Value rendering, output markers, the response builder, the formatter's packet header and the scan for an unfinished
  macro call: they would only add easy members.
