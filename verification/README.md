# Verified model of Asgard's core logic

A Dafny model of the parts of Asgard whose correctness a finite test suite cannot settle, with machine-checked proofs:

- **Workflow definitions** (`Digraph`, `WorkflowDefinition`, `CycleDetection`, `LoopValidation`, `WorkflowValidation`): the
  static checks of a workflow: Kahn's sort with any initial queue order, the depth-first search that must find an
  explicit cycle whenever the sort is stuck, and the loop checks, whose last phases walk parent chains without a visited
  set and rely on an earlier phase for termination.
- **The fakebash command path** (`StorageLog`, `Pipeline`, `CommandStream`, `Delivery`, `Inspector`, `ShellSplit`,
  `ShellInvocation`, `CommandUnpack`): a stream state machine that a watchdog may flip to passthrough before any frame,
  on top of a log format and a compression pipeline; the extraction of failure windows; and the shell splitter, option
  parser and unpacker.
- **The agent file set** (`AgentDigest`, `AgentFileSet`, `AgentSet`): the digest's byte stream, the splitting of file
  keys, and a parser that keeps one runner's faults from everybody else.
- **Session copies** (`CopySteps`, `SessionPlan`, `SessionCopy`, `SessionSearch`): copying a claude session between accounts
  as a run of atomic steps that may stop after any change to the disk.
- **Text formats and choices** (`Trimming`, `Quoting`, `Lines`, `PromptContract`, `QuotaMerge`, `FirstMaximum`,
  `AccountChoice`): the contract printer and parser, the quota profile merge, and the choice of the best account.

`GoText`, `Wrappers`, `Sorting` and `Digraph` hold what several modules share.

## Conventions

- Code that updates variables, maps or objects step by step is a method or a class proved equal to a specification
  function or relation; the theorems are lemmas about that specification. Code made of expressions is a function.
- A `char` is one byte in the fakebash and agent modules and one rune in `PromptContract`, `Quoting`, `Trimming` and
  `QuotaMerge`. Integers are unbounded.
- What the model cannot see is a parameter and arbitrary: the classifier's and summarizer's answers, read failures, which
  lines report a failure, which model names match, which runes above ASCII are printable, the decoding of YAML, the
  validity of a `when` expression, the moment the watchdog fires (`watchdog` frames are handled before the flag is first
  seen), and the number of disk changes before a copy stops (`power`).
- Go visits maps in any order; a method that does so picks any element, and its contract holds for every choice.

## Where the code differs from its documentation

For each, the exact condition under which the documented property holds is proved.

- A log whose command text has several lines does not read back exactly: `ReadPayload` strips up to the first newline,
  so the later lines of the command and the rest of the header stay in front of the output
  (`StorageLog.MultiLineCommandLeaks`). The log, and a run that prints it at its end, is exact if and only if the command
  is one line (`StorageLog.LogRoundTrip`, `Delivery.BrokenRunDelivers`, `Delivery.ExitedRunDelivers`). The first megabyte
  of an oversized run starts with the same leaked text, and also misses output when the header's first line is longer
  than the slack of the range read (`Pipeline.OverflowKeepsFirstMegabyte`, an input in `Pipeline.TwoLineOverflow`).
- The watchdog's replay reads a log that has no footer yet, so output that itself looks like a footer is cut there. For a
  one-line command nothing is lost if and only if there is no such output (`StorageLog.OpenLog`,
  `Delivery.FiredRunDelivers`).
- With a pipeline whose log file could not be created the id is empty, which names the latest log, so a run prints another
  command's output (`Delivery.RefusedLogPrintsForeignOutput`); `Delivery.RefusedRunDelivers` says exactly when it
  delivers its own.
- The comment on the in-memory limit speaks of switching to passthrough; the code drops the chunk, so output is complete
  if and only if what had to be held fits (`Delivery.BufferedExactlyWithinLimit`, `Delivery.MemoryRunDelivers`).
- `Effective` is documented as sorted by id; the code lists the global agents in id order and then the runner's own in id
  order. The list is sorted if and only if every global id comes before every id of the runner
  (`AgentSet.EffectiveSortedIff`, for parsed sets `AgentSet.ParsedLists`; a counterexample in
  `AgentSet.EffectiveNotSorted`).
- `ExtractInspectorLines` is documented as strictly capped. The output passes 32 KiB if and only if the kept lines reach
  it (`Inspector.CapExceededIff`, an input in `Inspector.CapExceeded`), and never 36990 bytes
  (`Inspector.InspectorBounds`).
- A contract value that contains a special character is quoted by `Render` but never unescaped by `Parse`, so together
  with a special character a double quote, a backslash or an unprintable rune is lost, and so is a `'` at either end; and
  a value of several lines without any special character is written raw. `PromptContract.RoundTrip` is the exact
  condition, `PromptContract.LostNames` gives inputs.

## Model

| member | source | states |
|---|---|---|
| CycleDetection.CountEdges | pkg/workflowspec/definition.go:658-677 | the maps describe the graph of unconditional edges: duplicates are counted once and every node that waits for another is listed under it |
| CycleDetection.InitialQueue | pkg/workflowspec/definition.go:679-684 | whatever order the map is visited in, the queue holds each node without prerequisites once |
| CycleDetection.ReleaseAll | pkg/workflowspec/definition.go:691-696 | Kahn's invariant is kept: every indegree is the number of distinct prerequisites still unprocessed, and exactly the nodes that reach zero are waiting |
| CycleDetection.Drain | pkg/workflowspec/definition.go:686-697 | the loop ends with an order in which prerequisites come first, and nothing that is left has indegree zero |
| CycleDetection.Sort | pkg/workflowspec/definition.go:658-701 | what is left over is the largest set of nodes that all wait for one another |
| CycleDetection.SortCorrect | pkg/workflowspec/definition.go:686-701 | from Kahn's invariant at the end of the sort: everything processed if and only if the graph is acyclic |
| CycleDetection.CycleSearch.Dfs | pkg/workflowspec/definition.go:741-766 | the search ends; it closes a simple cycle, or restores the path and leaves the node black with everything below it searched |
| CycleDetection.FindCyclePath | pkg/workflowspec/definition.go:718-774 | a path is returned iff the given nodes contain a cycle; it repeats only its first node, stays inside them, and when every node waits for another the first start node already finds it |
| CycleDetection.ReportCycle | pkg/workflowspec/definition.go:703-714 | leftover nodes always yield an explicit cycle of declared dependencies; the fallback message is never used |
| CycleDetection.DetectCycle | pkg/workflowspec/definition.go:657-714 | no cycle is reported if and only if the unconditional edges form none; otherwise the report is a simple cycle of declared dependencies among the leftover nodes |
| Digraph.StuckImpliesCycle | pkg/workflowspec/definition.go:699-711 | pigeonhole: a non-empty set in which every node has a prerequisite in the set contains a cycle |
| Digraph.OrderedImpliesAcyclic | pkg/workflowspec/definition.go:686-701 | a complete order with prerequisites first rules out every cycle |
| Digraph.AcyclicHasOrder | pkg/workflowspec/definition.go:686-701 | an acyclic graph can be listed completely with prerequisites first |
| LoopValidation.ChainEnds | pkg/workflowspec/definition.go:522-545 | without parent cycles every ancestor chain ends within as many steps as there are loops |
| LoopValidation.LoopInChain | pkg/workflowspec/definition.go:630-644 | the walk without a visited set terminates once parent cycles are excluded, and finds exactly the ancestors |
| LoopValidation.LoopsRelated | pkg/workflowspec/definition.go:625-628 | true exactly for loops of one ancestor chain |
| LoopValidation.LoopContainsNode | pkg/workflowspec/definition.go:646-653 | true exactly for the nodes listed |
| LoopValidation.CheckShapes | pkg/workflowspec/definition.go:486-520 | passes exactly well-shaped loops with distinct ids, records which nodes belong to loops, and blames truly otherwise |
| LoopValidation.CheckParents | pkg/workflowspec/definition.go:522-555 | passes exactly when parents exist, no chain is cyclic and children lie inside their parents |
| LoopValidation.CheckDisjoint | pkg/workflowspec/definition.go:557-574 | passes exactly when unrelated loops share no node |
| LoopValidation.CheckEdges | pkg/workflowspec/definition.go:576-605 | passes exactly when counting edges lie inside their loop and resetting edges lead into theirs, and counts the counting edges |
| LoopValidation.CheckCounted | pkg/workflowspec/definition.go:607-612 | passes exactly when every loop has a counting edge |
| LoopValidation.CheckFallbacks | pkg/workflowspec/definition.go:614-621 | passes exactly when exhaustion targets lie outside all loops |
| LoopValidation.ValidateLoops | pkg/workflowspec/definition.go:478-623 | accepts exactly the loop declarations that form a forest of nested node sets with unrelated loops disjoint, counting edges inside, each loop counted and fallbacks outside; every reported error is true of the definition |
| LoopValidation.SharedNodeMeansNested | pkg/workflowspec/definition.go:522-574 | two accepted loops with a common node lie on one chain, the inner node set inside the outer |
| LoopValidation.CountingEdgeInsideAncestors | pkg/workflowspec/definition.go:576-593 | a counting edge of an accepted loop lies inside every loop around it |
| WorkflowDefinition.WaitsFor | pkg/workflowspec/definition.go:658-677 | the edges that the cycle check is about: a node waits for exactly the targets of its dependencies without a condition |
| WorkflowValidation.Validate | pkg/workflowspec/definition.go:229-237 | with the dependency pass, the cycle check and the loop checks after it: accepts exactly the definitions with proper references, valid conditions, no unconditional cycle and valid loops |
| WorkflowValidation.CheckNodeIDs | pkg/workflowspec/definition.go:229-237 | passes exactly non-empty distinct node ids |
| WorkflowValidation.CheckDependencies | pkg/workflowspec/definition.go:364-379 | passes exactly when every dependency is on another declared node and its condition is valid |
| WorkflowValidation.AcceptedDefinitionHasOrder | pkg/workflowspec/definition.go:381-386 | the nodes of an accepted definition can be ordered with every unconditional dependency first |
| StorageLog.LogFile.Append | fakebash/storage.go:112-122 | appends exactly the chunk while open; refused without effect once finished |
| StorageLog.LogFile.Finish | fakebash/storage.go:124-140 | writes the footer once; any later call changes nothing |
| StorageLog.StripFooterExact | fakebash/storage.go:211-232 | in a finished file the real footer is the one that is cut, whatever the output looks like |
| StorageLog.FinishedLog | fakebash/storage.go:209-232 | what any finished log reads back as, for any command text and output |
| StorageLog.LogRoundTrip | fakebash/storage.go:209-232 | a finished log gives back the appended bytes exactly, if and only if the command text is one line |
| StorageLog.OpenLog | fakebash/storage.go:209-232 | a log that is still open reads back whole if and only if, for a one-line command, nothing in it looks like a footer, and for any other command the leaked header happens to echo the output |
| StorageLog.ReadRangeMeans | fakebash/storage.go:234-269 | a range read gives the bytes from the offset on, as many as the limit allows; a negative offset counts as 0, and without a positive limit everything behind it comes back |
| StorageLog.MultiLineCommandLeaks | fakebash/storage.go:89-110 | for a command of several lines: its later lines and the rest of the header come back in front of the output |
| Pipeline.Process | fakebash/pipeline.go:84-169 | for any classifier and summarizer: an outcome that is not compressed is the raw payload, truncated implies compressed, and tiny output is returned as it is; CompressedIff and OutputOf say the rest |
| Pipeline.CompressedIff | fakebash/pipeline.go:84-169 | output is replaced if and only if there is no bypass, it is not tiny, and it overflows, or the evaluator itself answered drop-on-success, or it asked to condense and the summarizer gave a non-empty text other than the payload |
| Pipeline.OutputOf | fakebash/pipeline.go:46-169 | the output in each of these cases: the payload, the notice with the id, or the summary, a newline and the footer with the id |
| Pipeline.NoEvaluatorNoLoss | fakebash/pipeline.go:122-139 | without an evaluator, or with one that failed, up to 16 MiB come back raw whatever the summarizer would say |
| Pipeline.BilledUsage | fakebash/pipeline.go:122-168 | every model call that was made is billed, also one whose answer was discarded, and no other |
| Pipeline.FirstMegabyteOf | fakebash/pipeline.go:84-110 | the range read behind a header line of at most 4096 bytes leaves exactly the first megabyte of output |
| Pipeline.FirstMegabyteOfRun | fakebash/pipeline.go:84-110 | for a command of any number of lines, the range read leaves the first megabyte of what follows the header's first line: the leaked header lines and then the output |
| Pipeline.OverflowKeepsFirstMegabyte | fakebash/pipeline.go:84-110 | for a command of any number of lines, oversized output becomes exactly its first 1048576 bytes, a newline and the footer with the id, if and only if the header's first line fits the slack and what leaks from its other lines reads like the output, or that line is longer than the whole range read and reads like the output |
| Pipeline.OneLineOverflow | fakebash/pipeline.go:84-110 | for a one-line command that condition is that the header fits the slack, the coincidence of an overlong header aside |
| Pipeline.TwoLineOverflow | fakebash/pipeline.go:84-110 | a command of two lines whose header fits and whose output is not kept |
| Pipeline.OverflowOutputSize | fakebash/pipeline.go:42-110 | with the code's own notice the size of that output depends on the header's first line and the command id only, never on the size of the payload |
| CommandStream.Buffered | fakebash/fakebash.go:68-71 | whatever frames arrive, the two buffers together never exceed one megabyte |
| CommandStream.StreamRun.ProcessStreamChunk | fakebash/fakebash.go:95-249 | one frame is written, logged and buffered as the passthrough flag demands |
| CommandStream.StreamRun.FlushBuffers | fakebash/fakebash.go:75-91 | replays the log when it can be read, otherwise the buffers, and nothing else |
| CommandStream.StreamRun.Run | fakebash/fakebash.go:95-249 | for every frame sequence, ending and watchdog moment the loop writes exactly the transcript; the code returned is what the first EXIT frame says (0 without a payload), without one 0 at the end of the stream and 1 when it breaks; the log is closed with that code |
| CommandStream.ExitCodeReports | fakebash/fakebash.go:210-219 | the code of the specification is the one the frames report, stated on the frames alone |
| CommandStream.ReportedCode | fakebash/fakebash.go:210-219 | the frames determine the code: end to end, when the first EXIT frame carries the decimal text of c, the run returns c |
| CommandStream.ReceivedByKind | fakebash/fakebash.go:204-209 | what counts as received, frame by frame: stdout and stderr payloads in order, each on its own stream |
| Delivery.FiredRunDelivers | fakebash/fakebash.go:95-249 | after the watchdog has fired every byte arrives exactly once and in order, if and only if the log replayed was intact: for a one-line command, nothing logged before looks like a footer |
| Delivery.BrokenRunDelivers | fakebash/fakebash.go:95-249 | a stream that ends or breaks before EXIT is delivered exactly once and in order, if and only if the command is one line |
| Delivery.ExitedRunDelivers | fakebash/fakebash.go:95-249 | at EXIT, unless the outcome says compressed, every byte is delivered once and in order with at most one newline added, if and only if the command is one line |
| Delivery.UnadvisedRunDelivers | fakebash/pipeline.go:122-139 | a run that exits without an evaluator, or with a failed one, delivers every byte up to 16 MiB once and in order, with at most one newline added, if and only if the command is one line |
| Delivery.LoggedRunStreams | fakebash/fakebash.go:75-249 | which stream the bytes go to: replay and outcome to stdout, and to stderr only the stderr frames received in passthrough |
| Delivery.WithNewlineMeans | fakebash/fakebash.go:210-249 | the newline is added exactly when the text does not end in one |
| Delivery.TinyOutputDelivered | fakebash/pipeline.go:42-60 | under 256 bytes nothing is ever withheld, whatever the advisers say; exact if and only if the command is one line |
| Delivery.MemoryRunDelivers | fakebash/fakebash.go:68-91 | without a readable log each stream gets exactly its own bytes, if and only if what had to be held in memory fits the limit |
| Delivery.BufferedExactlyWithinLimit | fakebash/fakebash.go:68-71 | the buffers hold everything exactly as long as everything fits |
| Delivery.RefusedLogPrintsForeignOutput | fakebash/storage.go:170-179 | with a pipeline but no log file, every answer that is not compressed is the latest log instead of the run's own output |
| Delivery.TinyRefusedRun | fakebash/storage.go:170-179 | a tiny run without a log file always comes to that when there is a latest log, and falls back to memory when there is none |
| Delivery.RefusedRunDelivers | fakebash/fakebash.go:75-249 | a run without a log file whose outcome is not compressed delivers its own output if and only if it falls back to memory and what was held fits, or the latest log happens to hold the same output |
| Inspector.MarkWindows | fakebash/summarizer.go:225-252 | the mask marks exactly the edges and the windows around the first 20 failures |
| Inspector.ExtractInspectorLines | fakebash/summarizer.go:202-279 | the loops compute the extract of the specification, cap included |
| Inspector.OutputListsKept | fakebash/summarizer.go:254-279 | the line path lists the kept lines in order with gap markers where numbers are not consecutive; if the cap is hit, the shortest such list that reaches it and the closing marker |
| Inspector.ChosenAreKept | fakebash/summarizer.go:254-279 | exactly the kept lines are listed |
| Inspector.ChosenInOrder | fakebash/summarizer.go:254-279 | they are listed in ascending order |
| Inspector.OutputIsBounded | fakebash/summarizer.go:196-279 | no input makes the output longer than a fixed length |
| Inspector.CapExceededIff | fakebash/summarizer.go:265-273 | the output is longer than the 32 KiB cap if and only if it takes the line path and the kept lines reach the cap |
| Inspector.InspectorBounds | fakebash/summarizer.go:196-279 | the same with the code's markers, and at most 36990 bytes for any input |
| Inspector.CapExceeded | fakebash/summarizer.go:202-279 | a concrete text of 33 lines whose extract is longer than 32 KiB |
| Inspector.ShortTextPasses | fakebash/summarizer.go:221-279 | at most 100 lines of ordinary length pass whole, with one newline more, below the cap, and exceed the cap exactly from it on |
| Inspector.SmallContentIsKept | fakebash/summarizer.go:205-209 | below 10 KiB the text comes back as it is |
| Inspector.FewLines | fakebash/summarizer.go:210-221 | a larger text of at most five lines comes back as its first 4096 bytes, the marker and its last 4096 bytes |
| Inspector.KeepsMeans | fakebash/summarizer.go:223-254 | the kept lines in numbers: the first and last 50, and 15 before to 35 after each of the first 20 lines that report a failure |
| Inspector.FailuresCount | fakebash/summarizer.go:235-241 | the count those 20 are taken from is the number of failing lines |
| Inspector.CutMeans | fakebash/summarizer.go:256-269 | a kept line is written whole up to 4096 bytes and otherwise cut there with a marker, after a gap marker where lines were skipped |
| ShellSplit.SplitCommandString | fakebash/fakebash.go:602-682 | the scanning loop over mutable flags computes the split of the specification |
| ShellSplit.SplitBound | fakebash/fakebash.go:602-682 | the words, each counted with a separator, are no longer than the string and one: nothing is made up |
| ShellSplit.SplitUndoesWriting | fakebash/fakebash.go:602-682 | splitting gives back every command line written by the shell's rules: words of bare bytes, backslash escapes, single-quoted and double-quoted runs with their own escapes, any gaps of spaces, any separators, a last command with or without an end |
| ShellSplit.SplitUndoesQuoting | fakebash/fakebash.go:602-682 | in particular, splitting single-quoted words and commands, with any mix of separators, gives back exactly the original list |
| ShellInvocation.ParseShellInvocation | fakebash/fakebash.go:332-366 | the index loop computes the parse of the specification |
| ShellInvocation.ParseIsGrammar | fakebash/fakebash.go:316-366 | it accepts exactly the sentences of a recursive grammar of shell options and splits them where the grammar says |
| ShellInvocation.OptionForms | fakebash/fakebash.go:316-330 | which arguments are options, how many values each takes (one for every o or O outside a long option), and which select the command string |
| ShellInvocation.BashGetsArgsVerbatim | fakebash/fakebash.go:375-404 | recognized or not, bash is given the very arguments that were sent; only an empty -c string is not run |
| CommandUnpack.UnpackCommand | fakebash/fakebash.go:693-746 | terminates on every argument vector; ok with a command exactly when one leaf is allowlisted and the others are no-ops, ok without exactly when all are no-ops |
| CommandUnpack.UnpackAll | fakebash/fakebash.go:717-741 | the loop over the inner commands gives the verdict on all their leaves together |
| CommandUnpack.InnerIsSmaller | fakebash/fakebash.go:693-746 | the termination measure: the words of the inner command are smaller than those of the outer |
| CommandUnpack.CommandByName | fakebash/fakebash.go:684-746 | the verdict on a plain command word, with the no-op and the allowlisted names spelled out; any other name that starts no shell and is not exec is blocked |
| CommandUnpack.BashRunsTheOne | fakebash/fakebash.go:693-746 | from the text of a -c string: all commands idle gives ok without a command, and one allowlisted command among idle ones gives exactly that command |
| AgentDigest.Hash | pkg/agentspec/fileset.go:43-57 | the loop over the sorted names feeds the digest the stream of the specification |
| AgentDigest.EntriesInjective | pkg/agentspec/fileset.go:45-57 | the length-prefixed encoding is uniquely decodable |
| AgentDigest.HashStreamInjective | pkg/agentspec/fileset.go:43-57 | two agents feed the digest the same bytes if and only if they have the same files |
| AgentDigest.SameStreamSameDirectory | pkg/agentspec/fileset.go:84-121 | equal streams mean the same materialized directory, executable bits included |
| AgentDigest.MaterializedIs | pkg/agentspec/fileset.go:95-111 | the directory holds exactly the files with their bytes, and a file is executable if and only if it starts with a shebang |
| AgentFileSet.SplitInvertsJoin | pkg/agentspec/fileset.go:241-261 | a key is recognized exactly when it is the key of a valid owner, and gives that owner back |
| AgentSet.GroupFiles | pkg/agentspec/fileset.go:154-232 | grouping loses and invents no file, and stops exactly at a runner with an invalid id |
| AgentSet.GroupedUnique | pkg/agentspec/fileset.go:154-232 | the grouping does not depend on the order in which the map is visited |
| AgentSet.GroupsExist | pkg/agentspec/fileset.go:154-232 | every file map has a grouping, also one that is refused for a runner id |
| AgentSet.CollectAgents | pkg/agentspec/fileset.go:154-232 | the first failing global agent in sorted order aborts with its own error; a failing runner agent is recorded for that runner only |
| AgentSet.ParseFiles | pkg/agentspec/fileset.go:154-232 | parsing succeeds exactly when teams, runner ids and global agents are in order, with each node's own agents and errors; otherwise the error is true of the files: the teams first, then a runner id, then the first failing global agent |
| AgentSet.ParsesExactly | pkg/agentspec/fileset.go:154-232 | when parsing succeeds, over the file map: no runner key is bad, the teams file decodes, and no global agent has an undecodable config or is a workflow without workflow.yaml |
| AgentSet.ParsedAgents | pkg/agentspec/fileset.go:205-232 | after success a node defines an agent with a config exactly when its config.yaml is among the files and decodes to it, workflow.yaml included when the kind is workflow; it holds exactly its own files |
| AgentSet.GlobalAgents | pkg/agentspec/fileset.go:205-232 | after success the global agents are exactly those with a config.yaml |
| AgentSet.ParsedErrors | pkg/agentspec/fileset.go:205-232 | a runner's errors are exactly its agents with an undecodable config and its workflows without workflow.yaml, each with its own error |
| AgentSet.ParsedTeams | pkg/agentspec/fileset.go:154-170 | the teams are what teams.yaml decodes to, and none without it |
| AgentSet.KeysOfFiles | pkg/agentspec/fileset.go:241-261 | the keys in those statements, spelled out |
| AgentSet.RunnerFaultsStayLocal | pkg/agentspec/fileset.go:154-232 | changing only what is below one runner's directory changes neither whether parsing succeeds, nor the global agents, nor any other runner's agents and errors |
| AgentSet.OtherRunnersUnaffected | pkg/agentspec/fileset.go:154-314 | the same for the two sets that parsing returns: teams, global agents, and every other runner's agents, errors and effective list are equal |
| AgentSet.Effective | pkg/agentspec/fileset.go:291-314 | a list is refused exactly for the runner's own errors and collisions; otherwise it is the globals in id order, then the runner's own in id order |
| AgentSet.EffectiveIDsDistinct | pkg/agentspec/fileset.go:291-314 | no id occurs twice in a list |
| AgentSet.EffectiveSortedIff | pkg/agentspec/fileset.go:291-314 | the list as a whole is sorted by id if and only if every global id comes before every id of the runner |
| AgentSet.EffectiveNotSorted | pkg/agentspec/fileset.go:291-314 | a set without errors or collisions whose list is not sorted by id |
| AgentSet.ParsedIsFiled | pkg/agentspec/fileset.go:205-232 | in every set that parsing returns each agent is filed under its own id |
| AgentSet.ParsedLists | pkg/agentspec/fileset.go:154-314 | hence, for every set that parsing returns, the ids of a valid list are distinct, and the list is sorted exactly under that condition |
| AgentSet.Collisions | pkg/agentspec/fileset.go:263-275 | the loops give the list of the specification, runner by runner |
| AgentSet.CollisionsReport | pkg/agentspec/fileset.go:261-275 | that list holds exactly the ids that a runner defines beside a global agent, sorted by runner and then by id |
| SessionCopy.Disk.EnsureRealDirs | agentwrapper/accounts/claude_session.go:175-200 | creates the missing components outermost first, and stops at the first that is no directory or at a crash |
| SessionCopy.Disk.CopySessionFile | agentwrapper/accounts/claude_session.go:248-295 | parents first, a destination of at least the size is kept, anything else is replaced in one rename |
| SessionCopy.Disk.CopyTree | agentwrapper/accounts/claude_session.go:220-246 | recursion and loop take exactly the steps of the tree, in listing order, up to a stop |
| SessionCopy.CopyClaudeSession | agentwrapper/accounts/claude_session.go:99-173 | refuses without effect exactly when a guard says so; otherwise takes the plan's steps, the jsonl files last |
| SessionCopy.RefusalMeans | agentwrapper/accounts/claude_session.go:106-136 | the guards and their order, each with its error; no refusal if and only if ids and aliases are valid and distinct, both accounts exist and the source holds a jsonl of the session |
| SessionPlan.TreeCopies | agentwrapper/accounts/claude_session.go:220-246 | a tree copy copies every regular file beneath it to the same place, and no other |
| SessionPlan.AncillaryCovered | agentwrapper/accounts/claude_session.go:99-164 | before the jsonl files the plan copies exactly the ancillary files of the session that the source has |
| SessionPlan.JsonlsCovered | agentwrapper/accounts/claude_session.go:128-171 | after them it copies exactly the session's jsonl files |
| SessionPlan.PlanWithin | agentwrapper/accounts/claude_session.go:99-105 | no step leaves the files and directories of the session |
| SessionPlan.FamilyShapes | agentwrapper/accounts/claude_session.go:99-164 | the files of a session by path, and that credentials, settings, running sessions and other sessions' files are none of them |
| SessionPlan.TodoGlob | agentwrapper/accounts/claude_session.go:155-164 | the todo files are exactly the matches of the glob |
| CopySteps.RunIsPrefix | agentwrapper/accounts/claude_session.go:248-295 | wherever a run stops, it has applied some of the first steps completely and nothing else |
| CopySteps.CrashSafe | agentwrapper/accounts/claude_session.go:248-295 | at every crash point no file has shrunk, every file is an old or a complete source file, and only paths of the steps changed |
| CopySteps.RerunAfterCrash | agentwrapper/accounts/claude_session.go:99-105 | a rerun after a crash anywhere ends in the entries, and with the success, of an uninterrupted run |
| CopySteps.RerunAfterCrashes | agentwrapper/accounts/claude_session.go:99-105 | the same after any number of interrupted runs |
| CopySteps.TempsLeft | agentwrapper/accounts/claude_session.go:271-294 | a run that was not cut off leaves no temporary; a crash leaves at most one, with the path and the bytes of a copy step |
| SessionCopy.JsonlIsLast | agentwrapper/accounts/claude_session.go:104-105 | if a run, however it stopped, changed a destination jsonl, every ancillary source file is at the destination with at least its source size |
| SessionCopy.NothingElseChanges | agentwrapper/accounts/claude_session.go:99-102 | outside the session's files and directories nothing changes, whenever the run stops |
| SessionCopy.FamilyIsOldOrCopied | agentwrapper/accounts/claude_session.go:248-295 | a destination file never shrinks, and a changed one is a complete file of the source at the same path |
| SessionCopy.FinishedCopyIsComplete | agentwrapper/accounts/claude_session.go:99-173 | after success every file of the session is at the destination with at least its source size |
| SessionSearch.FindClaudeSession | agentwrapper/accounts/claude_session.go:68-97 | answers exactly for a valid id, a readable list of accounts and valid aliases; then the alias of the first copy that is largest, then newest |
| SessionSearch.TieGoesToLeastAlias | agentwrapper/accounts/claude_session.go:68-70 | among copies that tie, the chosen one has the least alias |
| SessionSearch.CopiesAreAll | agentwrapper/accounts/claude_session.go:80-95 | the copies compared are exactly those the accounts hold |
| PromptContract.ParseFrontmatter | agentwrapper/common/prompt.go:95-130 | the loops over the lines compute the contract of the specification, unterminated fences included |
| PromptContract.FrontmatterOfRendered | agentwrapper/common/prompt.go:86-175 | what a rendered contract is read back as when its values are written on one line, whatever lines its body contains |
| PromptContract.ParsedFieldsAreOneLine | agentwrapper/common/prompt.go:95-146 | no text parses to a value with a newline in it |
| PromptContract.RereadIffSurvives | agentwrapper/common/prompt.go:132-188 | of the values written on one line, exactly the surviving ones are read back |
| PromptContract.RoundTrip | agentwrapper/common/prompt.go:86-188 | parsing a rendered contract gives it back if and only if it is not empty, every value survives and the body is trimmed |
| PromptContract.BodyIsKept | agentwrapper/common/prompt.go:79-113 | a text without a closed header is all body, trimmed, and no contract if nothing is left |
| PromptContract.HandWrittenHeader | agentwrapper/common/prompt.go:95-130 | a header between two fences, written by anyone: its lines fill the fields and the rest is the body |
| PromptContract.MetaLineMeans | agentwrapper/common/prompt.go:113-146 | a key and a value set exactly that key's field, quotes at the ends removed; an unknown key sets none |
| PromptContract.IgnoredLine | agentwrapper/common/prompt.go:132-146 | blank lines, comments and lines without a colon set nothing |
| PromptContract.SpecialIs | agentwrapper/common/prompt.go:177-188 | the characters that make a value quoted |
| PromptContract.LostNames | agentwrapper/common/prompt.go:86-188 | concrete contracts that do not come back from rendering and parsing, and one with special characters that does |
| Quoting.EscapesAddBackslashes | agentwrapper/common/prompt.go:184-186 | quoting never loses a backslash, and has more of them than the text unless every rune stands for itself |
| Quoting.ReadUndoesQuote | cmd/asgard-init/quota.go:115-118 | a reader of quoted literals gives back the text and what follows it, for every text and whichever runes are printable |
| QuotaMerge.FindHeaderLine | cmd/asgard-init/quota.go:179-188 | the first line with the section's key decides between section, inline value and none |
| QuotaMerge.ScanSection | cmd/asgard-init/quota.go:190-212 | the scan finds the indentation and the names of the section up to the next top-level key |
| QuotaMerge.MergeQuotaProfiles | cmd/asgard-init/quota.go:172-239 | the loops compute the merge of the specification, refusal of an inline section included; MergeCarriesProfiles says what the merged text means |
| QuotaMerge.EntriesPass | cmd/asgard-init/quota.go:120-133 | reading written entries with their indentation defines exactly their names |
| QuotaMerge.FieldsSayLimits | cmd/asgard-init/quota.go:120-133 | an entry's second line, read by a reader of its own, says unlimited or the thresholds in order, as the profile does; ratios hold no comma, as decimal numbers |
| QuotaMerge.MergeIsConservative | cmd/asgard-init/quota.go:172-239 | a merge that adds something puts one block of lines into the text, the entries of the missing profiles with the section's indentation, and changes no other line; any other merge returns the text itself |
| QuotaMerge.MergeDefines | cmd/asgard-init/quota.go:172-239 | afterwards exactly the old names and the added ones are defined, for any indentation the section uses |
| QuotaMerge.MergeCarriesProfiles | cmd/asgard-init/quota.go:172-239 | reading the merged config: every added name carries exactly its profile's limits, every other name what the old config said |
| QuotaMerge.InlineIsRefused | cmd/asgard-init/quota.go:167-188 | a merge is refused if and only if the section's header line carries an inline value that is no comment |
| QuotaMerge.SectionForms | cmd/asgard-init/quota.go:167-170 | which header lines open a section |
| QuotaMerge.PlainKeyIsRead | cmd/asgard-init/quota.go:167-212 | names written by hand without quotes are read as they stand |
| QuotaMerge.MergeIsIdempotent | cmd/asgard-init/quota.go:172-239 | a second merge of the same profiles adds nothing, skips all of them and returns its input unchanged |
| AccountChoice.BestMatchingUsage | agentwrapper/supported.go:345-362 | the loop keeps the best of the matching entries |
| AccountChoice.BestMatchingIsFirstMaximum | agentwrapper/supported.go:345-362 | the choice is a regular entry for the model, no other beats it, and it beats every earlier one |
| AccountChoice.BestEntryMeans | agentwrapper/supported.go:345-362 | the order spelled out: no matching entry is usable when the chosen one is not, and among equals none has more remaining, nor as much and an earlier place |
| AccountChoice.ChoiceIsAmongWinners | agentwrapper/supported.go:369-378 | choosing over all accounts together is choosing among the winners of the accounts |
| AccountChoice.BestAccountCheck | agentwrapper/supported.go:364-389 | the loop over the accounts computes the check of the specification |
| AccountChoice.CheckReports | agentwrapper/supported.go:364-389 | remaining fraction, usability and reason are those of the best entry of all accounts, except that an account without an entry turns unusable into usable without a reason |
| AccountChoice.UnusableVerdict | agentwrapper/supported.go:364-389 | a target is reported unusable only if every account has an entry for the model and none is accepted |
| AccountChoice.UnusableExactly | agentwrapper/supported.go:364-389 | where the policy judged every entry, exactly then |
| AccountChoice.FoundExactly | agentwrapper/supported.go:364-389 | there is a verdict exactly when some account has an entry for the model |
| FirstMaximum.BestIsFirstMaximum | agentwrapper/supported.go:349-361 | keeping the best so far, replaced only by a strictly better one, ends at the first maximum |
| FirstMaximum.BestConcat | agentwrapper/supported.go:369-378 | choosing over a concatenation is choosing between the two choices |

## Left out

- The runner's sequence, acknowledgement and replay protocol, the workflow engine at run time, and the agent loop: their code is not part of this model.
- Process spawning, pipes, gRPC, terminals, sandboxes, HTTP clients and user interfaces: I/O.
- SHA-256, YAML and JSON decoding: the model ends at the byte stream before the digest and takes decoders as parameters.
- File names, the `latest` link and the locking of the log store: the log of a command is one byte sequence, and "latest" is an input.
- The order in which the watchdog goroutine and the receive loop take the mutex: the flag is loaded once per frame, as the loop does.
- The wrap-around of 64-bit byte counters and token counts: numbers are unbounded.
- Permissions, time stamps and symlink races of the copied files: an entry is a regular file, a directory, or something else.
- Leftover `.copy-*` temporaries are counted, not named: that a later copy with this account as its source would copy them too is not modelled.
- A source account that changes while it is copied, and read errors of the source: the source is a fixed tree.
- Invalid UTF-8 in contract and config texts: strings are sequences of runes there.
- `parseQuotaProfile`, `CheckTarget`, `filterQuota` and the prompts of the setup tool: easy members.
- Floating-point formatting and NaN: ratios are text (without commas where they are read back), remaining fractions are reals.
- WorkflowValidation.Validate: its other checks (prompts, models, pairings, humans, schedules, timeouts and similar per-field rules) are left out as easy members, and whether a `when` expression is valid is a parameter, because the expression language is not part of this model.
- Delivery.RefusedRunDelivers: says nothing about a compressed outcome, which is made from the latest log as Pipeline.Process says.
- Delivery.ExitedRunDelivers: says nothing about a compressed outcome beyond what Pipeline.Process says, because its text is the summarizer's.
- SessionCopy.JsonlIsLast: promises at least the source size, not the source bytes, because the code keeps a destination file that is at least as large.
