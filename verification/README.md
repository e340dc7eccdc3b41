# OpenSquid verification

Dafny models of the algorithms and step protocols inside OpenSquid, and proofs about them. `dafny verify
dfyconfig.toml` checks the whole project.

Loops and objects of the TypeScript are methods and classes here, each proved against a specification function
or relation; what the system promises is then proved about the specification, over every input and every run.

- **Audits.** `AuditTypes`, `AuditIdentity`, `AuditEvidence`, `AuditFanout`, `CachedAudit` model the cached audit
  primitive: two content hashes, a store of attempts, per-lens reuse and a concurrent fan-out. `AuditRuns`,
  `AuditSafety` and `AuditProgress` are about runs: where every verdict comes from, and that no review is paid for
  twice. `AuditTemplate` and `AuditPolicy` are the one-pass template expansion and the policy built with it. `Utf8`
  and `Json` supply byte lengths, truncation and the text that is hashed.
- **Shell commands.** `ShellLexer`, `ShellLaws`, `ShellQuery`: the tokenizer (a subset of section 2.2 "Quoting" of
  the POSIX Shell Command Language), its round trip and composition law, and the query on it. `ProjectGuards`: the
  guards of a project's context file, given their meaning by that query.
- **Packs.** `CompositeResolver`/`CompositeLaws` (includes), `PackExtends` (parents), `EditDistance` (function
  names and suggestions), `CompileV2`/`FsmEngine`/`FlowRuns` (lowering state machines, and running what was
  lowered), `TolerantStrict` (unknown configuration keys, over an explicit heap), `PersonalRevision` (lessons on a
  disk that crashes).
- **Protocols and views.** `CostRouter` (round-robin over subscription pools), `Subscriber` (newline framing and
  reconnecting), `Rrf` (rank fusion), `StagedDiff`/`StagedDiffUnique` (patches of untracked files), `Routing` (chat messages),
  `StatusLine` (a board cut to a width).
- `Wrappers`, `Text`, `Decimals`, `StableSort` are shared helpers: options and results, string operations, reading
  numbers back, and a stable sort.

## What the proofs found

Where the code does not do what its comments suggest, the model follows the code. Each item names a lemma with an
input and one with the exact condition.

- The "unrouted event" check of the compiler is global, so a machine can compile and its driver still stop in a
  state it cannot leave, on an event routed elsewhere (`FlowRuns.GlobalRoutingMissesDeadEnd`) or on a self-loop
  (`FlowRuns.SelfLoopStopsTheDriver`). The driver advances iff the first enabled transition leads to another state
  or the state has a slash (`FlowRuns.AdvancesIff`).
- A state name with a slash passes validation, and the advance into it loses the state
  (`FlowRuns.SlashLosesTheState`, exactly `FlowRuns.LandsOnTargetIff`). Nothing else goes wrong in any run
  (`FlowRuns.CompiledRunsAreSafe`).
- A forbidden entry whose program is written with a path never fires (`ProjectGuards.SlashedEntryIsInert`, exactly
  `ProjectGuards.ForbidCanFireIff`), and an odd run of `-C`/`-c` before its first positional makes an entry miss
  the very command it spells (`ProjectGuards.DashCEntryMissesItself`, exactly
  `ProjectGuards.ForbidBlocksItselfIff`).
- A command that ends inside quotes or on a backslash takes the separator with it
  (`ShellLaws.OpenQuoteSwallowsTheRest`, `ShellLaws.DanglingBackslashTakesTheSeparator`); the composition law holds
  for every other command and for no such one (`ShellLaws.TokenizeJoined`).
- `detectExtendsCycle` also reports packs that merely lead into a cycle (`PackExtends.LeadingInIsReported`); it
  reports those with an ancestor on a cycle and no others (`PackExtends.NeverEndsIffMeetsCycle`).
- A second `start` of the chat subscriber makes it lose track of a socket (`Subscriber.SecondStartLosesASocket`);
  it keeps to one socket iff `start` was called once (`Subscriber.OnItsWayIffOneStart`).
- "Reply to source" holds for group messages; the answer to a direct message goes to the general chat, whichever
  chat it came from (`Routing.DirectAnswerGoesToGeneral`, exactly `Routing.ReplyGoesToSource`). On platforms other
  than telegram the wire form's topic is dropped, and on telegram a colon in a chat id is read as the start of a
  topic (`Routing.TwoTargetsShareAnAddress`, exactly `Routing.FormattedChannelParses`).
- Reading the lessons of a directory after a crash can also return a lesson that the version does not count yet
  (`PersonalRevision.CrashLeavesAnOrphan`); it reads the counted ones alone iff there is no such orphan
  (`PersonalRevision.ReadsTheLog`).
- The order of the lists given to rank fusion decides between ids (`Rrf.SwappedListsSwapATie`), and exactly between
  those of equal score (`Rrf.ListOrderDecidesTiesOnly`).
- The patch of an untracked binary file writes its path unquoted, so a line reader loses a path of two lines
  (`StagedDiff.TwoLinePathIsLost`); the round trip holds iff no binary path has a newline
  (`StagedDiff.DecodeArtifactIff`). The artifact still tells such paths apart
  (`StagedDiffUnique.SameArtifactIffSameFiles`).
- An audit whose pass verdict is `UNRESOLVED` passes on no evidence (`AuditEvidence.UnresolvedPassesVacuously`);
  with two distinct valid verdicts none does (`AuditEvidence.AggregatePassesIff`).

## Model

| member | source | states |
|---|---|---|
| AuditSafety.OkVerdictOverRuns | src/functions/cached_audit.ts:301-432 | Over every run of calls and model outcomes from an empty task: an `ok` lens-mode verdict is the aggregate of exactly one output per declared lens, in declaration order, each a bounded truncation of a review accepted, by some call of that run, for exactly that lens policy and that subject |
| AuditSafety.OkVerdictIsBacked | src/functions/cached_audit.ts:313-419 | The same for one call on any store whose contents are backed, whether the outputs were fetched now, reused lens by lens, or taken from a complete entry |
| AuditSafety.StepKeepsBacked | src/functions/cached_audit.ts:301-513 | Every call, in either mode and with any failure, keeps the store backed: whatever is stored was said by a recorded review |
| AuditSafety.ReachableStoreIsBacked | src/functions/cached_audit.ts:132-172 | So it is over every run from an empty task |
| AuditSafety.EvidenceIsAReply | src/functions/cached_audit.ts:366-392 | The recorded reviews are real: each is what the model answered, with a verdict mark, when some call of the run asked it for that policy and subject |
| AuditSafety.PassMeansEveryReviewerPassed | src/functions/cached_audit.ts:372-392 | A pass is never manufactured: if the verdict opens with the pass line, every declared reviewer's own untruncated reply opened with that very line |
| AuditProgress.NeverReviewedAgain | src/functions/cached_audit.ts:351-417 | Retry progress over runs of any length: a lens held by the newest attempt is reviewed by no later call on its key, whatever else those calls declare, as long as they keep declaring it for the same subject |
| AuditProgress.NewestStays | src/functions/cached_audit.ts:351-417 | One call: a completed lens stays in the newest attempt, so the completed set of a declaration only grows |
| AuditProgress.ReusableWithinTheWindow | src/runtime/loop/task_audit_cache.ts:63-102 | Whatever is called in between, a review is reused while fewer than a hundred attempts have been written after it |
| AuditProgress.NoSecondReview | src/functions/cached_audit.ts:351-363 | A lens completed for policy and subject, in any visible attempt, is not started |
| AuditProgress.CallRecords | src/functions/cached_audit.ts:393-417 | Partial completion is kept: what a persisted call had or just received is in the entry it writes, even when other lenses failed |
| AuditProgress.FullMeansFree | src/functions/cached_audit.ts:313-345 | Once every lens of a declaration is completed, a call of it that gets its lock, configuration and store starts no review and succeeds, whatever the models would do |
| AuditProgress.RepeatIsFreeAndSame | src/functions/cached_audit.ts:313-345 | After a successful call the identical call, given its lock and store, gives the same text with no review at all |
| AuditProgress.AttemptAges | src/runtime/loop/task_audit_cache.ts:63-102 | History is newest first and bounded: an attempt moves back one place per write to its key and is dropped at the hundredth |
| CachedAudit.AuditTask.Execute | src/functions/cached_audit.ts:250-520 | The imperative transaction (read, exact hit, prior lenses, fan-out, aggregate, write) has exactly the store, answer and reviews of the specified step, error paths included |
| CachedAudit.AuditTask.ExecuteLenses | src/functions/cached_audit.ts:301-432 | Lens mode against the step |
| CachedAudit.AuditTask.ExecutePrompt | src/functions/cached_audit.ts:442-513 | Single-prompt mode against the step |
| CachedAudit.AuditTask.WriteTaskCache | src/functions/cached_audit.ts:165-172 | A write that is refused or fails changes nothing; one that succeeds upserts the latest row and prepends the attempt |
| CachedAudit.AuditTask.SelectPriorLenses | src/functions/cached_audit.ts:351-363 | The loop collects, per declared lens, the newest prior output under exactly its policy hash |
| AuditIdentity.LensPolicyHashIsExact | src/functions/cached_audit.ts:200-212 | Two lens policies share a hash iff they agree on every hashed field; the proof reads the field list off the JSON text |
| AuditIdentity.DeclarationHashIsExact | src/functions/cached_audit.ts:215-239 | Two declarations share a cache hash iff they are the same declaration, mode and subject |
| Json.StringifyPrefixFree | src/functions/cached_audit.ts:200-239 | A JSON text determines its value and where it ends, whatever follows |
| AuditFanout.Run | src/functions/audit_fanout.ts:108-173 | The concurrent fan-out, with reviews settling in any order, returns what a function of the inputs says: order never shows; rejects exactly the invalid lens sets; every attempt ends in the state its outcome demands |
| AuditFanout.Partition | src/functions/audit_fanout.ts:151-172 | Completed and failed lenses partition the declaration, each list in declaration order |
| AuditFanout.CompleteIsWhole | src/functions/audit_fanout.ts:151-172 | With no failure the completed list is the declaration, one for one |
| AuditFanout.CompletedIffStartedThenResolved | src/functions/audit_fanout.ts:83-101 | Over every event sequence, the attempt table ends in `completed` iff the sequence opens with start and then resolve, and in `reused` iff it opens with reuse; whatever follows |
| AuditEvidence.AggregatePassesIff | src/runtime/loop/audit_evidence.ts:230-294 | With two distinct valid verdicts, the aggregate opens with the pass line iff the evidence is a sound set and every lens passed, and always opens with one of the two lines; with any others it opens with the unresolved line |
| AuditEvidence.UnresolvedPassesVacuously | src/runtime/loop/audit_evidence.ts:230-294 | The one way round it: a policy whose pass verdict is `UNRESOLVED` itself |
| AuditRuns.FanoutEntryIsEntry | src/runtime/loop/audit_evidence.ts:42-121 | What a fan-out writes always fits the store schema: no write is refused for its content |
| AuditRuns.PriorMapIsBacked | src/functions/cached_audit.ts:351-363 | Cutting a reused output again leaves a truncation of what was accepted |
| Utf8.TruncateByDropping | src/runtime/subagents/supervisor.ts:16-25 | The dropping loop of the byte-bounded truncation computes the specified prefix |
| Utf8.PrefixWithinIsLongest | src/runtime/subagents/supervisor.ts:16-25 | That prefix is the longest within the budget: every longer one is over it |
| Utf8.TruncateFits | src/runtime/subagents/supervisor.ts:16-25 | For every limit, however small, the result is within it, is the text or a marked prefix of it, and is the text exactly when that fits |
| Utf8.CutAgain | src/runtime/subagents/supervisor.ts:16-25 | Cutting a cut of a text again, to any limit, gives a cut of that text |
| Utf8.TruncationKeepsFirstLine | src/runtime/subagents/supervisor.ts:16-25 | A short first line seen after truncation was the first line before it |
| AuditTemplate.ProjectionIsExact | src/functions/audit_policy.ts:33-45 | The projected byte count equals the byte length of the expansion, for every template and input |
| AuditTemplate.EveryOccurrenceIsAHole | src/functions/audit_policy.ts:34-51 | The per-token scan counts equal the matches of the one-pass replacement |
| AuditTemplate.ExpandFillsHoles | src/functions/audit_policy.ts:47-51 | The output is the template with each token replaced verbatim; token-looking text inside rubric or diff is never expanded |
| AuditTemplate.ParseIsFaithful | src/functions/audit_policy.ts:47-51 | The pieces the expansion works on are the template itself |
| AuditTemplate.SequentialReplacementDiffers | src/functions/audit_policy.ts:47-51 | Replacing one token after the other would expand text inside the rubric: an input where it does |
| AuditTemplate.MaterializeTemplate | src/functions/audit_policy.ts:17-52 | The counting method fails exactly for an inadmissible template or an expansion over the cap, and otherwise returns the expansion |
| AuditTemplate.CountToken | src/functions/audit_policy.ts:35-42 | The `indexOf` loop counts all occurrences |
| AuditPolicy.MaterializePackAuditPolicy | src/functions/audit_policy.ts:55-110 | The policy of the first matching step in document order, and of no later one even when it fails |
| AuditPolicy.PolicyIsTheDeclaration | src/functions/audit_policy.ts:78-106 | A materialised policy is the declaration: subject, model, verdicts, timeout, and the reviewers in order with exactly their expanded prompts and criteria, all bounds holding again |
| ShellLaws.PrintThenTokenize | src/functions/shell_parse.ts:41-135 | Print/parse round trip: non-empty segments of arbitrary words (empty ones, quotes, operators, newlines), single-quoted and joined by any separators, tokenize back to exactly those segments when within the limit |
| ShellLaws.TokenizeJoined | src/functions/shell_parse.ts:108-122 | Composition, with its exact condition: for every separator and second command, tokenizing the joined command is concatenating the two tokenizations iff the first command ends outside quotes and not on a backslash |
| ShellLaws.OpenQuoteSwallowsTheRest | src/functions/shell_parse.ts:41-135 | An input: an open quote swallows the separator and the second command |
| ShellLaws.DanglingBackslashTakesTheSeparator | src/functions/shell_parse.ts:41-135 | An input: a backslash at the end escapes the separator |
| ShellLaws.PlainCommand | src/functions/shell_parse.ts:41-135 | Words without special characters, joined by spaces, are one segment of those words |
| ShellLaws.QuotedWordIsVerbatim | src/functions/shell_parse.ts:60-107 | A single-quoted word is read back verbatim from any scanner state inside a word |
| ShellLexer.TokenizeShell | src/functions/shell_parse.ts:41-135 | The scanner with its lookahead and local variables refines a one-character-at-a-time fold |
| ShellQuery.CommandInvokes | src/functions/shell_parse.ts:192-212 | True iff some segment invokes what is asked for, by program, subcommand, flags and targets |
| ShellQuery.FindSubcommand | src/functions/shell_parse.ts:196-200 | The option-skipping loop stops exactly at the subcommand when there is one |
| ShellQuery.SubcommandUnique | src/functions/shell_parse.ts:196-201 | A segment has at most one subcommand |
| ShellQuery.FlagPresent | src/functions/shell_parse.ts:148-160 | True iff some argument matches the flag, alone, with `=`, or bundled |
| ShellQuery.TargetPresent | src/functions/shell_parse.ts:179-212 | True iff some value is the target of a non-dash argument |
| ShellQuery.InvokesJoined | src/functions/shell_parse.ts:192-212 | A joined command invokes exactly what one of its parts invokes |
| ShellQuery.InvokesPrinted | src/functions/shell_parse.ts:192-212 | Quoting neither hides an invocation nor creates one |
| ShellQuery.QuotedMentionIsNoInvocation | src/functions/shell_parse.ts:192-212 | Text naming a program, as a quoted argument of another program, never counts as invoking it |
| ProjectGuards.ManagerGuardsBlockExactly | src/packs/project_context.ts:103-125 | `package_manager: M` blocks exactly the commands with some segment that runs another manager's listed verb |
| ProjectGuards.SettingsBlock | src/packs/project_context.ts:103-136 | The three surfaces together block what the manager guards, some forbidden entry or some authored rule blocks |
| ProjectGuards.SettingsToGuards | src/packs/project_context.ts:103-136 | The nested pushing loops build the three lists in order |
| ProjectGuards.ForbidCanFireIff | src/packs/project_context.ts:78-96 | A forbidden entry whose program has a slash blocks no command at all, and any other whose spelling fits the limit blocks some |
| ProjectGuards.SlashedEntryIsInert | src/packs/project_context.ts:78-96 | An input: `/usr/bin/git push` never fires |
| ProjectGuards.ForbidBlocksItselfIff | src/packs/project_context.ts:78-96 | An entry that is itself a plain command blocks itself iff an even run of `-C`/`-c` stands before its first positional, or a later word repeats that positional as the subcommand |
| ProjectGuards.DashCEntryMissesItself | src/packs/project_context.ts:78-96 | An input: the entry `git -C push` does not block the command `git -C push` |
| ProjectGuards.FlagsAreOptionRunIff | src/functions/shell_parse.ts:196-200 | Dash words form a run of global options iff an even number of `-C`/`-c` ends them |
| EditDistance.Levenshtein | src/packs/validate_functions.ts:98-111 | The in-place table computes the distance |
| EditDistance.NoCheaperScript | src/packs/validate_functions.ts:98-111 | No insert/delete/substitute script between two strings costs less than the distance |
| EditDistance.CheapestScript | src/packs/validate_functions.ts:98-111 | Some script costs exactly the distance |
| EditDistance.ZeroIffEqual | src/packs/validate_functions.ts:98-111 | The distance is zero iff the strings are equal |
| EditDistance.Symmetric | src/packs/validate_functions.ts:98-111 | The distance is symmetric |
| EditDistance.TriangleInequality | src/packs/validate_functions.ts:98-111 | The distance obeys the triangle inequality, so it is a metric |
| EditDistance.Compose | src/packs/validate_functions.ts:98-111 | Scripts compose without added cost, the ground of the triangle inequality |
| EditDistance.Closest | src/packs/validate_functions.ts:80-96 | Returns the first candidate of least distance within the cap, and nothing iff none is within it |
| EditDistance.ClosestIsUnique | src/packs/validate_functions.ts:80-96 | That determines the answer |
| EditDistance.ValidatePackFunctions | src/packs/validate_functions.ts:44-78 | Every unknown call is reported once, in document order, with the nearest known name |
| CompositeLaws.ExpansionSucceedsIff | src/packs/composite_resolver.ts:74-167 | With distinct names, expansion succeeds iff every include of every composite has a valid range, resolves and satisfies it, and no four composites include one another in a row (which covers all cycles) |
| CompositeLaws.ExpansionIsPermutation | src/packs/composite_resolver.ts:74-102 | A successful expansion is a permutation of the given packs |
| CompositeLaws.KeepsFirstOccurrences | src/packs/composite_resolver.ts:74-167 | It keeps, in order, exactly the first occurrence of each name in the preorder walks |
| CompositeLaws.CycleGivesChain | src/packs/composite_resolver.ts:130-160 | A composite met again on the way gives four composites in a row |
| CompositeResolver.ExpandComposites | src/packs/composite_resolver.ts:74-102 | The method equals the first-occurrence dedupe of the concatenated preorder walks, first error winning |
| CompositeResolver.Expansion.WalkIncludes | src/packs/composite_resolver.ts:104-167 | The recursive walk on the shared accumulator adds exactly what the pure walk meets, and terminates by the depth left |
| PackExtends.DetectExtendsCycle | src/packs/apply_extends.ts:83-104 | With distinct names, reports exactly the packs whose parents never end, in input order |
| PackExtends.WalkReenters | src/packs/apply_extends.ts:90-100 | One walk: terminates as unvisited names run out, and re-enters iff the way up never ends |
| PackExtends.EndlessMembers | src/packs/apply_extends.ts:83-104 | A pack is reported iff its way up never ends, and no name twice |
| PackExtends.NeverEndsIffParentDoes | src/packs/apply_extends.ts:90-100 | A pack never ends iff it has a parent that never ends: packs that only lead into a cycle are reported too |
| PackExtends.NeverEndsIffMeetsCycle | src/packs/apply_extends.ts:90-100 | A pack never ends iff it or some ancestor of it lies on a cycle of parents |
| PackExtends.LeadingInIsReported | src/packs/apply_extends.ts:83-104 | Inputs: a pack whose parent is its own parent is reported without lying on a cycle |
| PackExtends.ApplyExtends | src/packs/apply_extends.ts:47-81 | The field-by-field merge with its insertion-ordered skill map |
| PackExtends.LayeredSkills | src/packs/apply_extends.ts:66-78 | Child skills override by name, parent-only skills carry through, each name once |
| PackExtends.LayeringIsAssociative | src/packs/apply_extends.ts:47-81 | A chain of packs can be folded from either end |
| CompileV2.CompilePackV2 | src/packs/compile_v2.ts:203-230 | Succeeds iff the pack is compilable (parent, every nested flow, every sub-flow reference), and then builds its machines |
| CompileV2.CompileMachine | src/packs/compile_v2.ts:75-195 | Succeeds iff the machine is valid, its emitted events are routed and distinct and its guards resolve; metadata is there for exactly the declared states |
| CompileV2.AssertDistinctBranchEmits | src/packs/compile_v2.ts:233-241 | Fails iff two branches emit the same event |
| FlowRuns.CompiledRunsAreSafe | src/packs/compile_v2.ts:75-230 | Compiler soundness: in every run, through any stack of nested flows, every open frame is a declared state with metadata, gate and decision guards have expressions, and sub-flows have machines; only the active frame can have lost its state to the empty string, and not even that one when no target holds a slash |
| FlowRuns.RunsFromTheStartAreSafe | src/runtime/loop/driver.ts:155-167 | In particular for every run of the parent from its initial state |
| FlowRuns.SubFlowsAlwaysOpen | src/runtime/loop/driver.ts:136-151 | Entering a sub-flow never fails |
| FlowRuns.AdvancesIff | src/runtime/loop/gate_dispatch.ts:30-38 | The driver advances on an event iff the first enabled transition leads to another state; a state with a slash always counts as left |
| FlowRuns.GlobalRoutingMissesDeadEnd | src/packs/compile_v2.ts:156-161 | The routing check is per machine, not per state: a machine that compiles and whose gate event goes nowhere |
| FlowRuns.SelfLoopStopsTheDriver | src/runtime/loop/gate_dispatch.ts:30-38 | A machine that compiles and whose only event leads back to its own state, which the driver takes for no move |
| FlowRuns.LandsOnTargetIff | src/runtime/fsm.ts:355-392 | Every advance leads to a declared target, and lands on it iff its name holds no slash |
| FlowRuns.AdvanceLands | src/runtime/fsm.ts:355-392 | Where an advance ends, in all cases |
| FlowRuns.SlashLosesTheState | src/runtime/fsm.ts:355-392 | A two-state machine that compiles and whose only advance ends in no state |
| FlowRuns.Transition | src/runtime/loop/gate_dispatch.ts:30-38 | The driver's use of the engine step, throwing when nothing moved |
| FsmEngine.ValidateFsm | src/runtime/fsm.ts:65-82 | Reports no error iff the initial state and all transition ends are declared |
| FsmEngine.FireLands | src/runtime/fsm.ts:175-192 | A fired transition leaves exactly its target when that is one segment, and nothing otherwise |
| CostRouter.CostRouter.Pick | src/models/cost_router.ts:126-163 | Picks the first available pool from the cursor on, going round; fails iff none is available, with the reason; moves that tier's cursor alone and only on success; audits every decision |
| CostRouter.NoStarvation | src/models/cost_router.ts:126-163 | A pool available at n consecutive picks of a tier of n pools is picked by one of them, whatever the probe says of the others |
| CostRouter.OneFewerCanMiss | src/models/cost_router.ts:126-163 | The bound is tight: for every list of pools and every pool of it, one pick fewer can miss that pool although it is available throughout |
| CostRouter.Fairness | src/models/cost_router.ts:126-163 | In any window in which two pools stay available, their pick counts differ by at most one |
| CostRouter.TakeTurns | src/models/cost_router.ts:126-163 | The lead of one such pool over another is told by the cursor alone |
| CostRouter.TierRunsAlone | src/models/cost_router.ts:126-163 | However picks of other tiers and failed picks interleave, the successful picks of one tier are a run of that tier alone |
| CostRouter.RouterNeverStarves | src/models/cost_router.ts:126-163 | No starvation in the interleaved router |
| Subscriber.ChatBridgeSubscriber.OnData | src/mcp/chat_bridge_subscriber.ts:201-210 | The consuming loop dispatches exactly the non-empty complete lines of what was buffered and received, in order, and keeps the residue |
| Subscriber.ChatBridgeSubscriber.OnClose | src/mcp/chat_bridge_subscriber.ts:170-173 | The close handler forgets the socket and schedules one reconnect, unless stopped |
| Subscriber.ChatBridgeSubscriber.ConnectAndSubscribe | src/mcp/chat_bridge_subscriber.ts:153-174 | Nothing when stopped; a failed attempt schedules a reconnect; a successful one resets the buffer |
| Subscriber.ChatBridgeSubscriber.OnConnected | src/mcp/chat_bridge_subscriber.ts:176-199 | The subscribe request resets the delay only when it was written |
| Subscriber.OnItsWayIffOneStart | src/mcp/chat_bridge_subscriber.ts:153-174 | In every reachable state delays lie within [1000, 60000]; until stopped, open sockets and timers together number the calls of `start`, and the subscriber is on its way (the held socket is the only open one with nothing pending, or there is none and exactly one timer) iff `start` was called once |
| Subscriber.RunKeeps | src/mcp/chat_bridge_subscriber.ts:153-269 | In every reachable state open sockets and pending timers together number the calls of `start`, until stopped |
| Subscriber.SecondStartLosesASocket | src/mcp/chat_bridge_subscriber.ts:106-108 | A second `start` breaks the one-socket law: a concrete run |
| Subscriber.NothingAfterStop | src/mcp/chat_bridge_subscriber.ts:111-121 | After `stop` no connection is attempted, nothing is sent and no timer is set, in every continuation |
| Subscriber.ChunkingDoesNotMatter | src/mcp/chat_bridge_subscriber.ts:201-210 | Handling chunks one by one is handling their concatenation at once |
| Subscriber.SameTextSameState | src/mcp/chat_bridge_subscriber.ts:201-210 | Equal texts, however chunked, leave equal states |
| Subscriber.LinesAreThoseOfTheText | src/mcp/chat_bridge_subscriber.ts:201-210 | In every reachable state the dispatched lines are those of the text since the last socket opened, and the residue holds no newline |
| Subscriber.ShutdownBacksOff | src/mcp/chat_bridge_subscriber.ts:235-241 | After a shutdown line in any of the chunks of a run of chunks, the reconnect that follows the close waits at least five seconds |
| Subscriber.ExponentialBackoff | src/mcp/chat_bridge_subscriber.ts:261-269 | The k-th failed attempt in a row waits min(1000 * 2^(k-1), 60000) ms |
| TolerantStrict.Store.ParseTolerantStrict | src/packs/tolerant_strict.ts:42-71 | A valid value passes; one whose issues are all unknown keys is re-parsed without them and warned about once; anything else returns the first issues; nothing that was on the heap changes |
| TolerantStrict.Store.StripUnknownKeys | src/packs/tolerant_strict.ts:74-85 | The cloning loops return a value that stands for the pruned tree, and leave every existing object as it was |
| TolerantStrict.Store.DescendClone | src/packs/tolerant_strict.ts:88-101 | The descent clones each object on the path and stops where the path leaves the objects |
| TolerantStrict.StripDenotes | src/packs/tolerant_strict.ts:74-101 | Stripping on the heap is stripping the tree, also when objects are shared; only cells just allocated are written |
| TolerantStrict.StripAllIsPruning | src/packs/tolerant_strict.ts:74-85 | Stripping issue after issue is removing the set of reported pairs at once |
| TolerantStrict.OrderDoesNotMatter | src/packs/tolerant_strict.ts:74-85 | So issue order and repetition do not matter |
| TolerantStrict.ExactlyTheReported | src/packs/tolerant_strict.ts:74-85 | A position survives iff it was there and no reported key lies on the way to it; what survives is otherwise equal |
| TolerantStrict.ReparseSucceeds | src/packs/tolerant_strict.ts:57-70 | For a tree of strict objects with a complete report, the pruned value satisfies the schema and is exactly the known part of the value |
| TolerantStrict.TolerantParses | src/packs/tolerant_strict.ts:42-71 | For any schema function that accepts exactly such trees and reports completely, the tolerant parse succeeds iff the value satisfies the schema up to unknown keys, and its value is the parse of the known part |
| TolerantStrict.Frame | src/packs/tolerant_strict.ts:74-107 | A value is not affected by changes to objects it does not pass through |
| PersonalRevision.LogOnlyGrows | src/packs/personal_revision.ts:120-163 | In every run with a crash after any step of any call: the directory is consistent (version whole with revision k, lessons 1..k whole, at most lesson k+1 beside them), counted lessons stay unchanged, the revision never goes back, and the base version is never overwritten |
| PersonalRevision.AppendIsAtomic | src/packs/personal_revision.ts:120-142 | After every step but the last the counted lessons and the version are the old ones, after the last they are the old ones plus the new one, replacing an orphan |
| PersonalRevision.InitIsAtomic | src/packs/personal_revision.ts:150-163 | A first version appears whole or not at all |
| PersonalRevision.WriteIsAtomic | src/packs/personal_revision.ts:72-82 | Until its rename a write counts for nothing |
| PersonalRevision.AcknowledgedAppendStays | src/packs/personal_revision.ts:120-142 | A lesson whose append returned keeps its number and body in every later state |
| PersonalRevision.ReadsTheLog | src/packs/personal_revision.ts:89-111 | Reading, in any listing order, gives the counted lessons in order and after them the uncounted orphan of a crashed append, if there is one; it reads exactly the log iff there is none |
| PersonalRevision.CrashLeavesAnOrphan | src/packs/personal_revision.ts:120-163 | There can be one: for every base version and body, a run that crashes an append between its two files |
| PersonalRevision.NamesReadBack | src/packs/personal_revision.ts:46-111 | Lesson names read back as written; temporary files and the version file are never taken for lessons |
| PersonalRevision.RevisionDir.AppendLessonFile | src/packs/personal_revision.ts:120-142 | The disk after a crash at any step is the corresponding disk of the trace; fails without a version |
| PersonalRevision.RevisionDir.InitPersonalRevision | src/packs/personal_revision.ts:150-163 | An existing version is returned and nothing is written |
| PersonalRevision.RevisionDir.WriteVersionJson | src/packs/personal_revision.ts:72-82 | Temporary file first, rename last |
| PersonalRevision.RevisionDir.ReadLessonFiles | src/packs/personal_revision.ts:89-111 | The pushing loop followed by the sort; fails on a torn lesson |
| Rrf.RrfFuse | src/rag/rrf.ts:23-38 | The accumulating loops, sort and cut give the first `topK` of the ranking |
| Rrf.RankingIsFusion | src/rag/rrf.ts:23-38 | Each seen id once, under the sum over lists of 1/(60 + rank) of its occurrences; scores never increase |
| Rrf.RankedByScoreThenSight | src/rag/rrf.ts:34-36 | One id is ranked before another iff its score is higher, or equal and it was seen first |
| Rrf.ListOrderKeepsScores | src/rag/rrf.ts:23-33 | Scores do not depend on the order of the lists |
| Rrf.ListOrderDecidesTiesOnly | src/rag/rrf.ts:23-38 | With ids at most once per list: two ids have equal scores iff each of them is ranked first under some order of the lists |
| Rrf.SwappedListsSwapATie | src/rag/rrf.ts:23-38 | An input: two opposite lists of two ids, ranked one way and, swapped, the other |
| Rrf.UnanimityIsKept | src/rag/rrf.ts:23-38 | With ids at most once per list: an id ahead of another in every list containing the latter is ranked ahead of it |
| Rrf.TopKIsPrefix | src/rag/rrf.ts:34-37 | Output has min(topK, distinct ids) entries and the top k is a prefix of the top k+1 |
| StagedDiff.DecodeArtifactIff | src/functions/staged_diff.ts:35-77 | Round trip, with its exact condition: a reader of the joined patches gives back every label and text, in order, for all untracked files including empty, unterminated and patch-like ones, iff every binary file has a path of one line |
| StagedDiff.TwoLinePathIsLost | src/functions/staged_diff.ts:69-71 | An input: a binary file with a newline in its path |
| StagedDiffUnique.SameArtifactIffSameFiles | src/functions/staged_diff.ts:35-77 | The artifact determines the files, also where the reader fails: two lists share one iff they have the same paths in the same order and the same texts, as soon as one of them has no binary path with a patch boundary inside, or no name in one continues a name in the other with ` b/` |
| StagedDiffUnique.PiecesAreUnique | src/functions/staged_diff.ts:35-77 | An artifact falls into one piece per file at its boundaries, in one way only |
| StagedDiffUnique.NoSuchBodies | src/functions/staged_diff.ts:35-77 | The pieces of a binary patch whose path holds boundaries are never all patches themselves |
| StagedDiff.PatchShape | src/functions/staged_diff.ts:35-51 | The hunk count equals the number of `+` lines, and the marker appears iff the text is non-empty and unterminated |
| StagedDiff.LabelTellsThePath | src/functions/staged_diff.ts:36 | Different paths have different labels, quoted or not |
| StagedDiff.LinesGiveText | src/functions/staged_diff.ts:37-39 | The lines of a text give it back |
| StagedDiff.ListingOrderDoesNotMatter | src/functions/staged_diff.ts:62-77 | The artifact is the same in whatever order git lists the files |
| StagedDiff.ReadGitWorkingTreeDiff | src/functions/staged_diff.ts:54-77 | The pushing loop yields the artifact of the files sorted by UTF-16 code units |
| Routing.InverseIffDistinctBindings | src/channels/routing.ts:206-262 | With distinct ids, every umbrella's outbound target resolves back to it iff no two rows share a chat and topic |
| Routing.ReplyGoesToSource | src/channels/routing.ts:206-262 | The answer goes to the chat and topic the message came from iff the message was not direct (or was sent in the general chat itself); answers to direct messages go to the general chat |
| Routing.DirectAnswerGoesToGeneral | src/channels/routing.ts:206-262 | An input: the answer to a direct message goes to another chat than the message came from |
| Routing.FormattedChannelParses | src/channels/gateway.ts:96-123 | A formatted telegram channel parses to an address naming that chat and topic iff the chat id holds no colon; other platforms drop the topic |
| Routing.TwoTargetsShareAnAddress | src/channels/gateway.ts:96-123 | Inputs: a telegram chat id with a colon and another chat with a topic share an address; so do two discord topics of a chat |
| Routing.AnswerReachesTheSource | src/channels/routing.ts:276-300 | End to end: inbound message, umbrella, wire form, parsed address |
| Routing.ResolveUmbrellaForCwd | src/channels/routing.ts:319-332 | The nested loops return the id of the first row with the longest member that claims the directory on a path boundary, or nothing iff none claims it |
| Routing.RowOrderMattersOnlyWhenShared | src/channels/routing.ts:319-332 | The result is independent of row order iff the longest claiming member stands in rows of one umbrella only |
| Routing.SameLengthSameMember | src/channels/routing.ts:319-332 | Claiming members of the same length are equal |
| StatusLine.FitLine | src/cli/loop_status.ts:78-110 | The loop shows the number of chunks that the cut prescribes and counts the rest as `+N more` |
| StatusLine.RenderStatusLine | src/cli/loop_status.ts:78-110 | Idle line for an empty board; otherwise the cut of the freshest-first order |
| StatusLine.RenderStatuslineFragment | src/cli/loop_status.ts:117-141 | Nothing for an empty board; otherwise the cut of the board's own order |
| StatusLine.LineIsUnique | src/cli/loop_status.ts:90-109 | There is exactly one such cut, so that determines the line |
| StatusLine.StatusLineIsHonest | src/cli/loop_status.ts:78-110 | The rendered line splits the board into items it names and items it counts, losing none; the named are the freshest, equally fresh ones keeping the order of the board; and the line is within its width iff the freshest item with the count of the rest is |
| StatusLine.FragmentIsHonest | src/cli/loop_status.ts:117-141 | The fragment names a front of the board, in its own order, and counts the rest; within its width iff the first item with the count of the rest is |
| StatusLine.WithinWidthIff | src/cli/loop_status.ts:90-109 | For chunks of at least seven units, which all rendered items are, the cut is within the width iff the shortest cut is |
| StatusLine.FreshestSurvive | src/cli/loop_status.ts:80-88 | However many items are named, none of the others is fresher; equally fresh ones keep the order of the board |

## Left out

- FlowRuns.CompiledRunsAreSafe: that no state is lost is stated for packs without a slash in any transition target, whether or not such a transition is ever taken; a single advance has the exact condition.
- ProjectGuards.ForbidCanFireIff: that an entry without a slash can fire is stated when its spelled-out command fits in the tokenizer's 10,000 characters.
- StagedDiffUnique.SameArtifactIffSameFiles: two lists that both hold binary paths with an empty line and a whole `diff --git a/` inside, one of them also holding a name that continues a name of the other with ` b/`, are not settled; the contents of binary files are not in the artifact.
- AuditRuns.FanoutEntryIsEntry: rows written by older versions in other shapes are not modelled; the store holds the two shapes of the schema.
- Hashing: SHA-256 is a constructor, so injective; what is hashed is modelled as JSON text.
- Audit calls: the lock of a cache key makes each call one step; the telemetry ledger, the contents of the model configuration, admission slots and timeouts are outcomes of the outside world.
- Text: strings are sequences of Unicode scalar values; lone surrogates do not occur, and UTF-16 code units are counted in the status line and order the untracked paths; other lengths are those of the scalar values.
- Brace remainder of the template: modelled as the code has it; nothing is claimed about braces in accepted templates outside the tokens.
- Error and log messages: error kinds and their arguments are modelled, wording is not; the warning of an unknown key is the list of its keys.
- Guards: names, messages and the meaning of rules that an author wrote out in full.
- Machines: display fields of states, and `when` guards on transitions, which this driver never evaluates; a flat machine only, as the compiler produces no other; nested machines share the flow registry as a value instead of by reference; the inner loop of an executor state is one move.
- Semver: two predicates, valid range and satisfies.
- Object prototypes: looking up a configuration key finds own keys only.
- Second parse of the strict schema: any function of the tree it is given; Zod's unions, refinements and transforms are not modelled, strict objects, lists and scalars are.
- Cost router: the clock, the outcome sink and the per-pool limits that the probe is built from.
- Subscriber: eviction from the message buffer by age or number, `drainBuffer`, the text of the subscribe request; the shape tests of a parsed line are one abstract classification of the line.
- Lessons: the temporary name's process id and time are a parameter, a directory that does not exist is an empty one, and conflict files are read but never written here.
- Rank fusion: scores are exact rationals, not floating point.
- Staged diff: running git, the byte cap and the fail-quiet wrapper; a file counts as binary when its text holds a zero character.
- Status line: the JSON, watch and metrics views; an age is a whole number of milliseconds.
- Routing: loading the configuration file; kinds of platform send that the gateway does not activate.
- Command-line registration, servers, hooks, sockets, subprocesses, embeddings, databases, colour arithmetic, prompt texts and small predicates: input and output, or true by reading one branch.
