# ax-go: a verified model of its core

ax-go is a Go library that makes Cobra command-line tools usable by agents. This
project models the parts of it with the most state and branching in Dafny 4.11
and proves what they promise. `dafny verify dfyconfig.toml` checks everything.

| file | component |
|---|---|
| `Template.dfy`, `Prompts.dfy` | the prompt template scanner, the two folds over it, and `prompts/get` |
| `LokiProtocol.dfy`, `LokiWriter.dfy`, `LokiStreams.dfy` | the Loki sink: a step system over channel, batch, flush requests, acks and cancellation; the object whose methods are runs of it; and the grouping of a batch into streams |
| `Dispatch.dfy`, `Arguments.dfy`, `Dispatcher.dfy`, `Isolation.dfy`, `Interference.dfy`, `Leaks.dfy` | the MCP dispatcher over one shared, mutable command tree, what calls can see of each other, and where isolation fails |
| `ExecuteHooks.dfy`, `ExecuteStrict.dfy` | `ax.Execute` on a long-lived tree: hook wrapping, `--strict`, held stdout |
| `Declarations.dfy` | prompt and resource declarations and the two walks that project them |
| `Integers.dfy`, `FlagEnum.dfy` | Go's integer literals, and enum and example declarations on flags |
| `Surface.dfy`, `SurfaceBaseline.dfy` | the public-surface gate: reconcile, factorise, regenerate, check |
| `TypeGraph.dfy`, `Accumulator.dfy` | the unread-field gate: reachability over cyclic type graphs, and intersection across configurations by counting |
| `ReadBounded.dfy` | the chunked, bounded config read |
| `Base.dfy`, `Order.dfy` | `Option`, `Result`, Go's string order and sorting |

Code that changes state is modelled by classes and loops, each method proved
equal to a function of the old state; the theorems are about those functions,
over every run or every history. Pure code is modelled by functions.

## What the proofs show

- The jumping template scanner visits exactly what the plain one visits, which is
  exactly the set of placeholders described without any scanner (a `{{name}}`
  with an even number of `{` directly before it). It reads at most 8 bytes per
  template byte, where the plain scanner reads n(n+1) on a run of n brace pairs.
- In every interleaving of writers, ticks, flushes, drains and cancellation the
  Loki sink accepts exactly the writes that find fewer than 256 entries waiting and
  neither loses, duplicates nor reorders one of them; a closed ack means that
  everything accepted before the request was received is posted.
- What buildArgs makes of a call is described from the arguments alone
  (`BuildArgsCarriesTheArguments`), and what the command then sees is described flag
  by flag (`ViewIsDefaultsPlusArguments`): approval is never invented or changed.
- A dispatcher call leaves the tree so that the next one starts from the defaults
  **if and only if** none of the arguments it reaches is unsafe
  (`CallKeepsIsolationIffNotPoisoned`). The reset gives a scalar its default only
  when its changed bit is set, drops the error of that `Set`, and clears the bit
  all the same. So a value is unsafe in two ways. Its `Set` may write and then fail,
  which leaves the flag unchanged but off its default: pflag's integers and bools
  store the failed parse before reporting it (`RejectedIntegerLeaks`). Or `Set` may
  accept it and then be unable to take the default back: a pflag ip flag with a nil
  default prints "<nil>", which its own `Set` rejects (`AcceptedAddressLeaks`).
  Isolation as documented therefore fails for such trees, and the leak reaches
  every later call until one sets the flag (`PoisoningLeaks`). A default whose `Set`
  panics can even stop every later call (`StuckStopsEveryCall`). Trees whose scalar
  flags are strings, or integers carrying an ax-go enum, are safe
  (`EnumTreesAreFailSafe`).
- Beyond flags, a reply depends on two more things earlier calls leave behind, and
  on nothing else (`SameReplyIff`, `NonInterferenceIff`). A call that passes
  `strict` under `ax.Execute`'s context makes the wrapped hook put a buffer on the
  invoked command, which only the end of that Execute takes off: its own output and
  that of every later call to that command, or one below it, is lost
  (`StrictCallSilences`, `StrictLeakWitness`). And `help` is an unknown argument
  until Cobra has executed the command once (`LateFlagWitness`).
- `Execute` restores where every command writes. It does not always restore a
  command's own writer: one that equals its parent's effective writer is taken for
  an inherited one and cleared, so a later call may write elsewhere
  (`OwnWriterIsKeptIff`, `PinLostWitness`).
- Omitting `--strict` does not always mean the default. Only the root's own flags
  are reset, so a subcommand that declares its own keeps it
  (`OwnStrictFlagSticksWitness`); and a malformed `--strict=bogus` stores false
  without setting the changed bit, so a root flag whose default is true stays off
  (`MalformedStrictSticksWitness`). `StrictOnlyIfAskedIff` gives the exact condition.
- The surface check accepts exactly one valid baseline, the regenerated one, and
  none at all when some feature's presence is not a product of configurations and
  profiles.

## Model

| member | source | states |
|---|---|---|
| Template.ScanPlaceholders | internal/schema/declarations.go:373-398 | the visits are those of the scanner that resumes two bytes after a rejected `{{`, and the bytes read by both searches, the name check and the jump search are at most 8 times the template length |
| Template.JumpKeepsScan | internal/schema/declarations.go:362-395 | jumping to the last reachable `{{` of a rejected span leaves the rest of the scan unchanged |
| Template.LastReachableOpen | internal/schema/declarations.go:403-413 | returns the last `{{` a plain scan could reach in the span, reading the span exactly once |
| Template.CheckName | internal/schema/declarations.go:416-431 | accepts exactly non-empty names over the name alphabet, reading no byte twice |
| Template.LastOpenIsLast | internal/schema/declarations.go:400-413 | no opening pair that the scan can reach lies after the jump target |
| Template.NaiveScanExact | internal/schema/declarations.go:362-398 | from a position with paired braces, a span is visited if and only if it is a placeholder as described without a scanner |
| Template.ScanFindsThePlaceholders | internal/schema/declarations.go:362-398 | all placeholders of the template and nothing else, in order, without overlap |
| Template.BraceRunIsQuadratic | internal/schema/declarations.go:362-372 | without the jump, a run of n brace pairs costs n(n+1) bytes in the close searches alone |
| Prompts.RenderTemplate | internal/schema/declarations.go:337-347 | the loop computes the rendering: literals kept, each placeholder replaced by its value |
| Prompts.RenderedLen | internal/schema/declarations.go:354-360 | equals the length of the rendering for all inputs, with a running total never below what is still to copy |
| Prompts.ValuesAreNeverRescanned | internal/schema/declarations.go:330-347 | one fixed sequence of literals explains the template and every rendering; a value fills its slot whole |
| Prompts.SelfSubstitutionIsIdentity | internal/schema/declarations.go:330-347 | substituting each placeholder by its own text gives the template back |
| Prompts.RenderBound | internal/schema/declarations.go:349-360 | the rendering grows by at most one value per five template bytes |
| Prompts.RenderedFits | internal/schema/declarations.go:349-360 | with template and values of at most 64 KiB the length is below 2^30 |
| Prompts.GetPrompt | internal/mcpserver/prompts.go:55-94 | text is returned if and only if the arguments are acceptable and the rendering is at most 1 MiB; it is then the rendering; every refusal names a true reason |
| LokiProtocol.StepConserves | loki.go:146-251 | every step of writers, loop, drains and cancellation keeps conservation and the buffer bounds |
| LokiProtocol.StepKeepsAcks | loki.go:167-251 | every step keeps the ack bookkeeping: closed at most once, and only over posted entries |
| LokiProtocol.RunKeepsInvariant | loki.go:146-251 | the invariant holds after any run, and posted and accepted entries only grow |
| LokiProtocol.FifoConservation | loki.go:146-154 | in every interleaving the entries posted, batched and still in the channel are, in order, exactly those of the writes that found fewer than 256 entries in the channel; the batch holds fewer than 100 at every loop head |
| LokiProtocol.AcceptedAreAdmitted | loki.go:146-154 | over every run from every state, accepted grows by exactly the entries of the Write events that found fewer than 256 in the channel, in order |
| LokiProtocol.AckGuarantee | loki.go:167-251 | when an ack is closed, every entry accepted before run received the request has been posted, in order; it was closed once |
| LokiProtocol.ClosedMeansAdmittedDelivered | loki.go:167-251 | over every run: once an ack is closed, every write that got in before the loop received its request, or before its Drain was called, is posted, in order |
| LokiProtocol.DrainedMeansDelivered | loki.go:167-190 | a Drain that returned by its ack means every entry accepted before the call is posted |
| LokiProtocol.ReceivedIsClosedOnce | loki.go:197-228 | a received flush request is closed exactly once, unless the loop is still serving it |
| LokiProtocol.FlushRuns | loki.go:234-251 | with writers quiet a flush posts batch and channel as one batch in one step per entry plus one |
| LokiProtocol.FlushIsForced | loki.go:234-251 | while the loop flushes, its only enabled step is the next one of the flush |
| LokiProtocol.LoopStaysLive | loki.go:197-228 | from every reachable state short of shutdown, some schedule of at most channel length plus 3 loop steps delivers everything accepted and leaves the loop ready for later writes |
| LokiProtocol.EveryScheduleDelivers | loki.go:197-251 | from every reachable state before the loop returned, with writers quiet and no new drain, every schedule of working loop steps, with any choice among entries, ticks, flush requests and cancellation, takes at most 2 per buffered entry, 3 per offered drain and 5 more, accepts and drops nothing, and when none is left everything accepted is delivered and every request received is closed |
| LokiProtocol.StoppedIsFinal | loki.go:197-228 | after the loop returned nothing more is posted; later writes stay in the channel |
| LokiWriter.Writer.Write | loki.go:146-154 | never blocks and reports len(p); with fewer than 256 entries in the channel the entry goes behind them and is accepted, with 256 it is dropped and nothing changes; it is a Write step |
| LokiWriter.Writer.FlushRemaining | loki.go:234-251 | collects everything buffered and posts it as one batch |
| LokiWriter.Writer.OnEntry | loki.go:209-214 | the oldest entry moves to the batch, which is posted whole as its hundredth entry arrives; it is a Receive step |
| LokiWriter.Writer.OnTick | loki.go:215-219 | a tick posts a non-empty batch |
| LokiWriter.Writer.OnFlushRequest | loki.go:220-222 | serving a request is the run accept, flush, close; everything accepted is then posted |
| LokiWriter.Writer.OnCancel | loki.go:223-225 | observing cancellation is a run that posts everything and stops |
| LokiStreams.ExtractLevelIs | loki.go:260-271 | for every line: the non-empty text between `"level":"` and the next quote, where that prefix first occurs; "unknown" if and only if there is none |
| LokiStreams.LabelStore.SanctionLabels | loki.go:314-329 | the sanctioned set is exactly the non-empty pairs of all calls so far |
| LokiStreams.SanctionedField | loki.go:334-343 | a field whose pair is sanctioned is promoted under its own value, and nothing else is |
| LokiStreams.LabelsOfLine | loki.go:260-378 | the label map of a line, exactly: its level, and environment, application, host and version if and only if the line holds a non-empty value whose pair is sanctioned, each under its own value |
| LokiStreams.PromotedLabelsWereSanctioned | loki.go:287-343 | a stream's label map carries the line's level, and every other label was declared by an earlier SanctionLabels |
| LokiStreams.StreamMapInjective | loki.go:360-378 | two keys have the same label map if and only if they are equal |
| LokiStreams.KeyLessIff | loki.go:380-394 | the keys compare by environment, application, host, version and level, the first that differs deciding |
| LokiStreams.KeyLessIsStrictTotal | loki.go:380-394 | compareStreamKeys is a strict total order |
| LokiStreams.GroupByKey | loki.go:403-428 | each key's entries, in arrival order |
| LokiStreams.GroupBatch | loki.go:403-428 | the grouping and sorting loops build the streams of the batch, whatever order the map yields |
| LokiStreams.GroupingConserves | loki.go:403-428 | no entry is lost or duplicated by the grouping |
| LokiStreams.SelectKeepsOrder | loki.go:403-428 | a stream's entries are exactly those of its key, at increasing batch positions |
| LokiStreams.StreamsPartitionTheBatch | loki.go:403-428 | the streams partition the batch, keys strictly increase, label maps are pairwise different |
| LokiStreams.StreamLabelsWereSanctioned | loki.go:287-428 | over a whole push, every stream has a level and no undeclared label |
| Dispatch.BuildArgsOk | internal/mcpserver/dispatch.go:226-300 | a built argument vector names each flag at most once, holds only accepted flags, names approval if and only if the client did, and carries the configuration the call asked for |
| Arguments.BuildArgsCarriesTheArguments | internal/mcpserver/dispatch.go:226-390 | from the arguments alone: a refusal is the reason of the first offender in name order, or else names the first required flag that nobody gave; otherwise the vector, sorted, holds exactly format=json, dry-run=true if the client said true, yes with what the client said if it said anything, the idempotency key asked for or the fresh one, and every other scalar argument under its own text, and each slice argument is assigned its own items in order |
| Arguments.FoldIs | internal/mcpserver/dispatch.go:238-275 | the sorted pass stops at exactly the first argument that offends, or has gathered what all the arguments ask for |
| Dispatch.BuildFoldOk | internal/mcpserver/dispatch.go:226-300 | the sorted pass over the arguments keeps the draft consistent: distinct names, slice assignments apart from scalars, configuration from the arguments |
| Dispatcher.BuildCallArgs | internal/mcpserver/dispatch.go:226-300 | the loop builds the vector, assignments and configuration that BuildArgsCarriesTheArguments describes, or its refusal, for the flags the command has at this time |
| Dispatcher.Dispatcher.ResetCommandTree | internal/mcpserver/dispatch.go:614-638 | command by command, each slice is given its defaults and each changed scalar its default, the error is dropped and the bit cleared, then the context is rebound; a panic stops midway |
| Dispatcher.Dispatcher.ApplyFlagAssignments | internal/mcpserver/dispatch.go:640-652 | assigns slices in order, stopping at the first refusal or panic with what it left |
| Dispatcher.Dispatcher.ParseFlags | internal/mcpserver/dispatch.go:420-459 | parses the vector in order, stopping at the first rejection or panic with what that Set left |
| Dispatcher.Dispatcher.Run | internal/mcpserver/dispatch.go:397-459 | reset, assign, parse and run, stopping where any of them does; a strict run leaves a writer on its command, and the reply holds the output only if it reached this call's buffer |
| Dispatcher.Dispatcher.Dispatch | internal/mcpserver/dispatch.go:180-193 | one call: unknown tool, rejected arguments (by the flags the command has so far), or a run; state and reply are those of the specification |
| Isolation.ResetRestoresIffClean | internal/mcpserver/dispatch.go:606-638 | reset completes with exactly the default tree if and only if every flag returns to its default: an unchanged scalar that holds it, a changed scalar or slice whose Set or Replace takes it back |
| Isolation.ResetEffect | internal/mcpserver/dispatch.go:606-638 | reset completes if and only if no flag's own restoring panics, and then each flag is as its own restoring leaves it; otherwise each is that or untouched |
| Dispatch.WalkVisits | internal/mcpserver/dispatch.go:606-638 | the reset reaches exactly the local and persistent flags and the contexts of the command and of every command below it, however deep |
| Isolation.StartIsCleanIff | internal/mcpserver/dispatch.go:83-124 | the first state, with the flags a command line already set, is clean if and only if every slice takes its defaults back and every such scalar its default |
| Isolation.CallKeepsIsolationIffNotPoisoned | internal/mcpserver/dispatch.go:180-193 | after any call from a clean state the next one starts with flags and contexts at their defaults if and only if no argument that call reaches is unsafe: written and then failed, or accepted with no way back to the default |
| Interference.SameReplyIff | internal/mcpserver/dispatch.go:180-193 | from two clean states the replies agree if and only if the same arguments are let through and either both commands are heard, or neither, or there was nothing to hear |
| Interference.CleanExecute | internal/mcpserver/dispatch.go:397-459 | from a clean state the reply is the call's own, muted if a command on its path has a writer, and writers and executed commands grow by the call's own |
| Interference.RanOnlyAdmits | internal/mcpserver/dispatch.go:226-300 | a command having been executed before only lets through arguments that name its late flags |
| Interference.HistoryMarks | internal/mcpserver/dispatch.go:180-193 | a history leaves a command with a writer, or executed, if and only if one of its calls did so where the earlier ones left the tree |
| Interference.HistoryStaysClean | internal/mcpserver/dispatch.go:180-193 | any history of calls that do not poison, however they end, leaves the tree clean |
| Interference.NonInterference | internal/mcpserver/dispatch.go:180-193 | two arbitrary histories without poisoning, that leave no writer on the call's path, give a call that names no late flag the same reply |
| Interference.NonInterferenceIff | internal/mcpserver/dispatch.go:180-193 | after any two histories without poisoning the replies agree if and only if the command was executed in both or neither, or that decides nothing about the arguments, and its path was diverted in both or neither, or nothing was written |
| Interference.ViewIsDefaultsPlusArguments | internal/mcpserver/dispatch.go:226-459 | after any such history a call that runs has no refused and no missing argument; its body sees every accepted flag as the arguments say, set from its default with "json", with "true" for a dry-run, with the "true" or "false" of the client for yes, with the key asked for, with its own text or items, and untouched where there is no argument or null; every other flag is at its default, and the context holds the same configuration. The reply is the body's result, its output lost exactly when the call is strict or a command on its path has a writer; it leaves the flags as seen, the command executed, the context its hooks left, and a writer exactly when it is strict and not the root's |
| Interference.YesFollowsTheClient | internal/mcpserver/dispatch.go:275-300 | approval is changed if and only if the client supplied it |
| Interference.ArgvOrderIsIrrelevant | internal/mcpserver/dispatch.go:288-300 | two orders of one vector both complete or both stop, and those that complete reach the same state, so sorting it cannot matter to a call that runs |
| Interference.StoppedParse | internal/mcpserver/dispatch.go:420-459 | a parse that stops names a failing token, leaves what that one wrote, and otherwise differs from its start only in accepted tokens; order decides no more than which |
| Isolation.FailSafeNeverPoisons | internal/mcpserver/dispatch.go:606-638 | if no value of any flag is unsafe, no call poisons |
| Leaks.PoisoningLeaks | internal/mcpserver/dispatch.go:622-638 | a poisoning call leaves a flag that, over every later history in which no call sets it, every call that runs sees off its default; or one whose restoring panics, and then the next call let through is answered with that panic |
| Leaks.TaintStays | internal/mcpserver/dispatch.go:622-638 | one call that does not set a flag the reset cannot bring back leaves it so and, if it runs, sees it off its default |
| Leaks.StuckStopsEveryCall | internal/mcpserver/dispatch.go:622-638 | a flag whose restoring panics and leaves it as it was answers every later call that passes validation with the panic |
| Leaks.DirtyFlagIsSeen | internal/mcpserver/dispatch.go:622-638 | an unchanged scalar passes the reset as it stands, whatever it holds, and is seen so by any call that does not set it |
| Leaks.UnsafeFlagCanBePoisoned | internal/mcpserver/dispatch.go:622-638 | on every tool without required flags whose engine values parse, one unsafe value of a scalar flag makes a poisoning call |
| Leaks.ReachedUnsafePoisons | internal/mcpserver/dispatch.go:622-638 | any call, on any tool, that reaches an unsafe value among accepted arguments poisons |
| Leaks.RejectedIntegerLeaks | internal/mcpserver/dispatch.go:622-638 | on a tree with the engine's real flags, a rejected value of a pflag int poisons |
| Leaks.AcceptedAddressLeaks | internal/mcpserver/dispatch.go:622-638 | on the same tree, any accepted value of a pflag ip whose default is nil poisons |
| Leaks.StrictCallSilences | execute.go:363-376 | for every tree and whatever calls follow, the output of each later call to the strictly run command or one below it reaches no reply, nor did that call's own |
| Leaks.StrictLeakWitness | execute.go:363-376 | a tree on which the plain call is heard first and not after a strict call |
| Leaks.LateFlagWitness | internal/mcpserver/dispatch.go:571-582 | on that tree help is an unknown argument first and let through after a plain call |
| ExecuteHooks.WrapIsIdempotent | execute.go:294-319 | wrapping an already wrapped tree changes nothing |
| ExecuteHooks.WrapKeepsInv | execute.go:306-395 | wrapping keeps every command wrapped at most once around its adopter's own hooks |
| ExecuteHooks.NearestIsOwner | execute.go:294-319 | after wrapping, the nearest-ancestor rule stops where it would have, or at the root, and at a wrapped hook |
| ExecuteHooks.OwnerIsNearest | execute.go:294-319 | that is the end of the way up past every command that declares no hook |
| ExecuteHooks.SetupRunsOnceBeforeAdopterHooks | execute.go:328-395 | whichever command is invoked, the setup runs exactly once and first, then the E hook and the plain hook of its nearest ancestor that declares one, the plain one unless the other failed; a rejected mode runs none |
| ExecuteHooks.HistoryKeepsInv | execute.go:294-395 | the invariant holds after any history of added commands and Executes |
| ExecuteHooks.EveryExecuteSetsUpOnce | execute.go:294-395 | over every such history the next Execute meets the guarantee |
| ExecuteHooks.CommandTree.WrapPersistentPreRun | execute.go:306-319 | the loop wraps the root and every hooked command, and no other |
| ExecuteHooks.CommandTree.WrapCommand | execute.go:328-395 | wraps an unmarked command once and marks it |
| ExecuteStrict.ExecuteContract | execute.go:222-246 | from the call alone, on every tree state: an error wins and gives its code, 1 for zero; otherwise a strict call whose last WithWarnings lists a warning with non-blank code and message exits 2, any other 0. A strict call delivers only when it exits 0, any other whatever it wrote: exactly its writes, one after the other, at the writer nearest to its command and at no other |
| ExecuteStrict.KeptAreProper | contract/warnings.go:8-23 | a warning is kept, as often as it is listed, if and only if its code and its message each hold something other than white space |
| ExecuteStrict.KeptInPlace | contract/warnings.go:8-23 | each kept warning stays where it stands among the others |
| ExecuteStrict.LastKeptIff | warnings.go:44-53 | there is something to escalate if and only if the last WithWarnings of the body lists a proper warning; earlier ones are forgotten |
| ExecuteStrict.EffectiveIsNearest | execute.go:424-443 | a command writes to the first writer on the way up from it, or to the process's stdout |
| ExecuteStrict.WritersAreRestored | execute.go:415-443 | after any call every command's effective writer is what it was before the hold |
| ExecuteStrict.OwnWriterIsKeptIff | execute.go:424-443 | a command's own writer survives restore if and only if it differs from the parent's effective writer (for the root: if it had one) |
| ExecuteStrict.PinLostWitness | execute.go:424-443 | a concrete strict call after which the next call writes elsewhere |
| ExecuteStrict.LastMentionSettles | execute.go:397-413 | over any history a strict flag settles where the last call whose parse reached it says: a root flag at its default unless that parse met a malformed value first, any other at the last value reached, malformed meaning false |
| ExecuteStrict.LastTokensAre | execute.go:397-413 | the tokens that settle a flag are those reached by the last call of the history that mentions it |
| ExecuteStrict.StrictOnlyIfAskedIff | execute.go:397-413 | after any history, a call that does not ask is as strict as the default if and only if: no parse reached its flag and it started so; or it is the root's own and the last parse to reach it met a boolean first or the default is false; or it is not and the last token reached left it at the default |
| ExecuteStrict.OwnStrictFlagSticksWitness | execute.go:397-413 | a concrete tree where the next call is strict without asking |
| ExecuteStrict.MalformedStrictSticksWitness | execute.go:397-413 | a root flag with default true that one malformed token switches off for the next call |
| ExecuteStrict.UnreachedStrictIsIgnored | execute.go:397-413 | a --strict behind another argument's parse error does not stick |
| ExecuteStrict.HistoryStaysWellFormed | execute.go:135-217 | over any sequence of calls the tree stays well formed: no held buffer remains, defaults are kept |
| ExecuteStrict.AxTree.Prepare | execute.go:262-278 | resets the root's flags, sets the root writer, parses the --strict tokens up to the first parse error |
| ExecuteStrict.AxTree.Execute | execute.go:135-246 | exit code and new tree are those of the specification, on every path including a panic |
| ExecuteStrict.AxTree.RunBody | warnings.go:35-53 | the last WithWarnings list wins; writes land in the held buffer or at their writer |
| Declarations.SchemaEqualsCollection | schema/schema.go:243-273 | the pre-order reading of the ax-native schema equals CollectDeclarations, for prompts and for resources |
| Declarations.ConvertMatchesWalk | schema/schema.go:246-273 | from any Deduper state, converting the reflected tree keeps what a first-wins walk keeps and leaves the same seen keys |
| Declarations.SchemaMirrorsTree | schema/schema.go:243-273 | the schema has the shape of the tree without hidden commands, and each node carries only what its own command declares |
| Declarations.ConvertCommandSchema | schema/schema.go:246-273 | the recursion over one shared Deduper computes the specified schema and Deduper state |
| Declarations.CollectDeclarations | internal/schema/declarations.go:284-293 | the walk with a Deduper collects the first of each key in walk order |
| Declarations.WalkVisitsVisible | internal/schema/declarations.go:238-246 | the walk visits the root first, hidden or not, and below it exactly the commands that are not hidden and have no hidden command above them |
| Declarations.KeepFirstLoop | internal/schema/declarations.go:570-581 | keeps the first declaration of each unseen key and records it |
| Declarations.KeepFirstDrops | internal/schema/declarations.go:570-581 | kept keys are distinct and new; nothing is dropped if and only if all keys are new and distinct |
| Declarations.KeepFirstPicks | internal/schema/declarations.go:570-581 | exactly the first declaration of each unseen key is kept, in order |
| Declarations.NothingDroppedIffUnique | internal/schema/declarations.go:284-318 | deduplication drops nothing if and only if the undeduplicated keys are unique |
| Declarations.FindDuplicate | internal/schema/declarations.go:536-559 | none if and only if all keys are unique; otherwise the first repeat in walk order with both declaring paths |
| Declarations.Deduper.FirstPrompts | internal/schema/declarations.go:310-312 | keeps the first of each unseen prompt name and touches no resource key |
| Declarations.Deduper.FirstResources | internal/schema/declarations.go:316-318 | keeps the first of each unseen resource URI and touches no prompt name |
| Declarations.KeepValid | internal/schema/declarations.go:518-534 | nothing is dropped if and only if every entry is valid |
| Declarations.KeepValidPicks | internal/schema/declarations.go:518-534 | exactly the valid entries are kept, in order |
| Declarations.AddDeclaration | internal/schema/declarations.go:481-513 | the annotation and violation of the specification; a refusal changes nothing, and the other kind is never touched |
| Declarations.AddedIs | internal/schema/declarations.go:481-513 | the first check that fails refuses: an invalid declaration, an annotation that does not decode or holds an invalid entry, a key it holds already; otherwise the declaration goes behind what was there |
| Declarations.AdditionIsClean | internal/schema/declarations.go:481-534 | an accepted addition appends to what is projected; a refused one leaves the annotation |
| Declarations.AdditionsKeepFirst | internal/schema/declarations.go:481-534 | any sequence of additions projects the valid declarations with the first of each key: addition refuses exactly what a first-wins walk would drop |
| Integers.ParseUintIff | internal/schema/convert.go:343-349 | reads exactly the texts that denote a number below two to the bit size, and as that number: the digits, in positional notation, of the base that a prefix, a leading zero or neither shows, with separators neither first, last nor adjacent |
| Integers.ParseIntIff | internal/schema/convert.go:335-341 | reads exactly an optional sign and a denoted number within the two's complement range of the bit size, as that number |
| Integers.LiteralRoundTrip | internal/schema/convert.go:335-349 | a number written in base 2, 8, 10 or 16 with its prefix parses back if and only if it fits the bit size |
| Integers.SignedLiteralRoundTrip | internal/schema/convert.go:335-341 | the same with either sign, in the signed range |
| Integers.IntRoundTrip | internal/schema/convert.go:335-341 | base-10 formatting parses back, in base 0 and base 10, if and only if the value fits |
| Integers.UintRoundTrip | internal/schema/convert.go:343-349 | the same for unsigned values |
| Integers.ParsedFits | internal/schema/convert.go:335-349 | whatever parses fits the bit size |
| Integers.FormatInjective | internal/schema/convert.go:301-349 | different integers have different canonical forms |
| FlagEnum.FormIs | internal/schema/convert.go:301-349 | a value has a canonical form exactly as its type reads it: an integer that fits as it prints, a string or custom value as it stands, another built-in type none |
| FlagEnum.CanonicalIsFixed | internal/schema/convert.go:301-333 | a canonical form canonicalises to itself |
| FlagEnum.EnumAcceptedIff | internal/schema/declare.go:121-176 | AddFlagEnum accepts if and only if the type is supported and the values non-empty, each with a form, no two alike, with default and example among them |
| FlagEnum.EnumRefusedIff | internal/schema/declare.go:133-176 | refuses for exactly the first check that fails: unsupported type, no values, the first value that has no form or the form of an earlier one, a default or a declared example that is none of them |
| FlagEnum.ExampleRefusedIff | internal/schema/declare.go:236-271 | refuses for exactly the first check that fails: an empty example, one that the type does not read, one that is none of the declared values; an accepted one replaces the last |
| FlagEnum.AdvertisingFailsClosed | internal/schema/declare.go:203-283 | on every flag state: a set is read back if and only if the default is empty or a member, an example if and only if it would be accepted now |
| FlagEnum.AcceptedEnumIsAdvertised | internal/schema/declare.go:133-226 | an accepted set is what FlagEnum then returns, around the same innermost value; a refused call changes nothing |
| FlagEnum.DeclareKeeps | internal/schema/declare.go:133-252 | each declaration keeps the invariant, and a rejected one leaves the flag as it was |
| FlagEnum.HistoryKeepsDeclarations | internal/schema/declare.go:133-252 | after any declarations: allowed and canonical match pointwise, forms are distinct, default and example are members, wrapped at most once |
| FlagEnum.DeclaredExampleIsAdvertised | internal/schema/declare.go:273-283 | after any declarations the advertised example is the declared one |
| FlagEnum.EnumIsAdvertised | internal/mcp/mcp.go:283-305 | a declared enum is always advertised in full, in author order, each value rendering back to its member's canonical form |
| FlagEnum.MemberRendersCanonically | internal/mcp/mcp.go:287-305 | a member's JSON value is the number its canonical form prints, or its own string, and renders to its canonical form |
| FlagEnum.EnumJson | internal/mcp/mcp.go:287-305 | converts all members in order, or nothing |
| FlagEnum.AdvertisedIsAccepted | internal/schema/declare.go:89-97 | every advertised value, rendered by the dispatcher, reaches the wrapped Set, which for strings and integers accepts it and stores exactly that |
| FlagEnum.AcceptedIffAdvertised | internal/schema/declare.go:89-97 | on strings and integers Set accepts a value if and only if it canonicalises to an advertised one, apart from an empty default; the stored text is the advertised one |
| FlagEnum.CustomAcceptedIff | internal/schema/declare.go:89-97 | on custom types exactly the default and the advertised strings reach the wrapped Set |
| FlagEnum.EnumIsFailSafe | internal/schema/declare.go:83-97 | with a non-empty default no value makes a wrapped integer Set write and then fail |
| FlagEnum.EnumTreesAreFailSafe | internal/schema/declare.go:83-97 | so trees of string flags and enum flags, with printed defaults and slices that take theirs back, meet the dispatcher's isolation condition |
| FlagEnum.Flag.Set | internal/schema/declare.go:89-97 | type and declared set stay; a value that is neither the default nor a member is refused and changes nothing; an accepted one is what the flag holds; a failure that wrote nothing changes nothing |
| FlagEnum.AddFlagEnum | internal/schema/declare.go:133-176 | a nil command or a flag that is neither local nor persistent is reported; otherwise state and violation are those of EnumRefusedIff on the local flag, or else the persistent one |
| FlagEnum.AddFlagExample | internal/schema/declare.go:236-252 | the same for examples |
| Surface.Reconcile | internal/cmd/surfacecheck/inventory.go:445-500 | succeeds if and only if every feature has one signature; then every scanned feature once, in key order, with exactly the combinations it was seen in; otherwise the divergences are exactly the sightings that disagree with the first one of their feature |
| Surface.SightingsAre | internal/cmd/surfacecheck/inventory.go:458-459 | a feature is sighted in a combination if and only if a scan of that combination lists it |
| Surface.InventoryIsUnique | internal/cmd/surfacecheck/inventory.go:445-500 | the scans determine the inventory, whatever their order |
| Surface.KeyLessIff | internal/cmd/surfacecheck/inventory.go:488-493 | features compare by package and then id |
| Surface.KeyLessIsStrictTotal | internal/cmd/surfacecheck/inventory.go:488-493 | the feature order is strict and total |
| SurfaceBaseline.MatrixIsProduct | internal/cmd/surfacecheck/inventory.go:180-188 | a combination is in the matrix if and only if its configuration and profile are listed |
| SurfaceBaseline.MatrixAt | internal/cmd/surfacecheck/inventory.go:180-188 | the matrix holds each pair once, configurations outside and profiles inside |
| SurfaceBaseline.DefaultCombinations | internal/cmd/surfacecheck/inventory.go:180-188 | the nested loops build that matrix in canonical order |
| SurfaceBaseline.NewPresenceSet | internal/cmd/surfacecheck/main.go:170-180 | the canonical set, with "all" for the whole universe |
| SurfaceBaseline.CanonicalSetDenotes | internal/cmd/surfacecheck/main.go:144-180 | a canonical set stands for exactly its members and validates unless empty |
| SurfaceBaseline.ValidSetIsCanonical | internal/cmd/surfacecheck/main.go:144-180 | two valid sets never spell the same members differently |
| SurfaceBaseline.FeaturesValidIff | internal/cmd/surfacecheck/main.go:338-358 | a package validates if and only if its ids strictly increase, no id or signature is empty, and each presence set is the one spelling of some non-empty part of its universe |
| SurfaceBaseline.FactorisesIffProduct | internal/cmd/surfacecheck/main.go:700-714 | factorisation is accepted if and only if the observed presence is a product of a configuration set and a profile set |
| SurfaceBaseline.GeneratedIsValid | internal/cmd/surfacecheck/main.go:312-355 | a generated baseline validates |
| SurfaceBaseline.BaselineFromInventory | internal/cmd/surfacecheck/main.go:652-698 | the generated baseline if and only if every presence factorises, otherwise exactly the keys that do not |
| SurfaceBaseline.DiffBaseline | internal/cmd/surfacecheck/inventory.go:516-555 | reports exactly what drifted: added, missing, signature and presence changes |
| SurfaceBaseline.PresenceDrift | internal/cmd/surfacecheck/inventory.go:560-582 | names the first combination, in canonical order, on which record and scan disagree, or nothing |
| SurfaceBaseline.NoDriftIffAgrees | internal/cmd/surfacecheck/inventory.go:516-582 | no drift against a valid baseline if and only if keys, signatures and presence are equal |
| SurfaceBaseline.RegenerateThenCheck | internal/cmd/surfacecheck/main.go:643-698 | when every presence factorises the generated baseline validates and shows no drift |
| SurfaceBaseline.CheckPassesIffRegenerated | internal/cmd/surfacecheck/inventory.go:516-582 | a valid baseline shows no drift if and only if every presence factorises and it is the generated one |
| SurfaceBaseline.ReconciledIsInventory | internal/cmd/surfacecheck/inventory.go:445-500 | a reconciled scan of the listed packages over the matrix meets what those theorems ask of an inventory |
| TypeGraph.Walk.Visit | internal/unreadfield/escape.go:344-382 | terminates on every finite graph; enters only reachable types, takes every step out of those it enters, and calls back for exactly their fields |
| TypeGraph.VisitedFields | internal/unreadfield/escape.go:339-382 | exactly the fields reachable from the type; none from nil |
| TypeGraph.ExposedFields | internal/unreadfield/scope.go:42-123 | exactly the fields reachable from some exported object under the exposing rule, although one seen set is shared |
| TypeGraph.CarriersAreLeast | internal/unreadfield/escape.go:344-382 | for every graph and field, kind by kind: a pointer, slice, array or channel carries what its element does; a map its key or element; a signature its parameters or results; a tuple its variables; a named type its arguments and, if local, its underlying type; an interface nothing; a struct its own fields and what their types do. The types from which a field is reachable are the least set closed under these rules, and under the exposing ones (exported methods, embedded types, exported or embedded fields) |
| TypeGraph.FieldStepsIff | internal/unreadfield/scope.go:92-99 | a struct's field is followed always when visiting, and when exposing only if exported or embedded |
| TypeGraph.CopyHarmless | internal/unreadfield/escape.go:62-79 | true if and only if every candidate field reachable from src is reachable from dst |
| TypeGraph.Carries | internal/unreadfield/escape.go:325-332 | true if and only if a candidate field is reachable |
| TypeGraph.HarmlessChain | internal/unreadfield/escape.go:62-79 | a chain of harmless copies is harmless from end to end |
| TypeGraph.NowhereIsHarmlessIffNothingCarried | internal/unreadfield/escape.go:62-79 | a copy to nil or an interface is harmless if and only if nothing is carried |
| TypeGraph.StoringInsideIsHarmless | internal/unreadfield/escape.go:62-79 | storing a value inside a type that carries its type is harmless at any depth |
| TypeGraph.IdenticalStructsAreNotInterchangeable | internal/unreadfield/escape.go:62-66 | two identical struct literals reach different field objects, so copying between them is not harmless |
| Accumulator.BuildResult | internal/unreadfield/analyze.go:174-198 | findings are among the assigned fields as multisets, with sorted, distinct positions; both lists are sorted |
| Accumulator.UnreadAre | internal/unreadfield/analyze.go:174-198 | a finding is exactly a field that is set and never read, with each place that sets it once, in order |
| Accumulator.AssignedKeysAre | internal/unreadfield/analyze.go:174-183 | the assigned fields are exactly those that some literal sets |
| Accumulator.Accumulator.Add | internal/unreadfield/run.go:97-113 | the totals and merged findings are those of all results so far |
| Accumulator.Accumulator.Report | internal/unreadfield/run.go:115-124 | exactly the unused fields, in key order, each with the sorted, duplicate-free union of its positions and its first declaration |
| Accumulator.EqualTotalsIffPointwise | internal/unreadfield/run.go:115-124 | the two totals agree if and only if they agree in every result |
| Accumulator.UnusedIffFoundWhereverAssigned | internal/unreadfield/run.go:89-124 | reported if and only if a finding in every configuration that assigns it, when no result lists a field twice |
| Accumulator.OrderIsIrrelevant | internal/unreadfield/run.go:89-124 | the same results in another order give the same fields and positions |
| Accumulator.SortCompactLists | internal/unreadfield/run.go:109-111 | sorting and compacting lists exactly the given positions, strictly increasing |
| Accumulator.FieldKeyLessIff | internal/unreadfield/analyze.go:217-225 | fields compare by package, type and name |
| Accumulator.FieldKeyLessIsStrictTotal | internal/unreadfield/analyze.go:217-225 | compareKeys is a strict total order |
| Accumulator.PositionLessIsStrictTotal | internal/unreadfield/analyze.go:227-229 | comparePositions is a strict total order |
| ReadBounded.ReadBounded | internal/config/config.go:63-103 | for every reader: at most maxBytes+1 bytes consumed, nothing read under an invalid limit, the outcome of the specified run, and no exit through the loop condition |
| ReadBounded.ChunkingIsIrrelevant | internal/config/config.go:46-103 | for every chunking, content and ending alone decide: TooLarge if and only if over the limit, whatever the ending and whenever it arrives; otherwise the content, the source error, or no progress |
| ReadBounded.CancellationOnlyAborts | internal/config/config.go:77-80 | a run is cut short if and only if the context is done at one of the polls that the run would otherwise make, and then the first of them gives the reason; else the outcome is the uncancelled one |
| ReadBounded.LargerLimitKeepsContent | internal/config/config.go:63-103 | raising the limit never changes a successful read |
| ReadBounded.Reader.Read | internal/config/config.go:86-90 | fills a prefix of the buffer with the reader's answer and advances it |

## Left out

- HTTP posting, TLS, retries, timers and wall-clock timestamps of the Loki sink: "posted" means handed to postBatch, and ticks, drain deadlines and cancellation are steps that may happen at any time.
- A bound on flushRemaining while writers keep enqueuing: there is none; progress is stated for quiet writers.
- Cobra and pflag themselves: nearest-hook choice, parsing of `--name=value`, each type's Set and Replace, and the split of slice arguments are parameters of the models. Cobra's own required-flag check after parsing is not modelled, and command bodies do not write flag variables.
- Map-valued flags (`stringTo*`), and any Value whose Set depends on hidden state: a modelled Set depends on the text the flag holds and the text it is given.
- A `--strict` flag that an author declared with a type other than bool.
- Command bodies and hooks write through their command's own OutOrStdout; writers set on commands by them are not modelled.
- JSON: encoding and decoding are taken to be inverse, so invalid UTF-8 in strings, and the difference between an absent and a null list in a baseline file, are not modelled.
- Which declarations are valid (names, URIs, sizes, UTF-8) and which paths commands have: parameters of Declarations.
- Flag types other than strings and integers in FlagEnum: parameters; pflag type names are constructors.
- The package and field counts in the unread-field report.
- The wording and order of drift messages, the audit file and its cross-validation, and the collection of features from packages in surfacecheck.
- Alias resolution, type-checker internals, the expression-by-expression harmless rules and the marking of reads in unreadfield: only reachability, copies and the cross-configuration fold are modelled, and positions are taken as the analyzer lists them, before paths are made relative.
- HuJSON parsing, telemetry, error envelopes, llms.txt, benchmark and size gates, examples and root facades: they would only add easy members.
- Accumulator.OrderIsIrrelevant: does not cover the declaration position of a finding, because the code keeps the first one it sees.
- Prompts.GetPrompt: leaves open which of several offending arguments is named, because Go ranges over the argument map in no fixed order.
- Integers.IntRoundTrip: the integer parser is Go's strconv, modelled from its documented behaviour; syntax and range errors are not told apart, because callers only ask whether parsing failed.
