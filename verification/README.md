# Verified models of the tooling algorithms

The repository is a network simulator together with the tools that build, test and
inspect it.  This project models the self-contained algorithms of the tooling and
proves what they compute.  Every operation the source performs by changing
variables, lists, dictionaries or fields step by step is a Dafny method or class
here, proved against a specification; the lemmas then relate the specifications to
each other.

| files | what they model |
|---|---|
| `Graphs`, `Pending`, `TopSort`, `TopSortTheorems` | the two topological sorts of `bindings/python/topsort.py` |
| `Rotations`, `FindCycles` | the enumeration of all cycles, with the rotation test it uses |
| `WorkerProtocol`, `WorkerInterrupt` | the dispatcher, worker threads, queues and interrupt flag of `test.py`, and what the signal does to the jobs |
| `TypePaths`, `TypePathEdges`, `TypePathRepeats` | the class of `utils/print-introspected-doxygen.cc` that gathers configuration paths, which types it follows and in what order, and when it records a path twice |
| `ShellParse`, `ShellRoundTrip`, `ShellGrammar` | the token state machine of `waf-tools/shellcmd.py`, and the grammar of the token lists it accepts |
| `ShellRun`, `ShellMeaning`, `ShellPosix`, `ShellPipes`, `ShellLog` | its interpreter, a denotational meaning, the comparison with POSIX, and an audit of all it does to processes and files |
| `PatchSet`, `PatchRoundTrip`, `PatchRewrite`, `PatchErrors` | the unified-diff reader and writer of `utils/check-style.py`, and the errors of the reader |
| `Timeline` | the binary searches and windows of `utils/grid.py` |
| `Permutations`, `BinaryWords`, `Euclid` | combinatorics and arithmetic of `bindings/python/rad_util.py` |
| `Wrappers`, `Sequences`, `Paths` | `Option`, `Result`, and shared facts about sequences and about texts with slashes |

## What is proved

**Sorting.**  For every list of pairs, duplicates and self-loops included, `topsort`
fails exactly when the pairs contain a cycle; the left-over elements are exactly
those on a cycle or reachable from one.  Otherwise the answer is a permutation of
the elements in dependency order, and it is ordered by longest-path depth, so that
cutting it by depth gives the levels of `topsort_levels`.  Both functions end with
the same left-over dictionaries.

**Cycles.**  `find_cycles` lists simple cycles only, every simple cycle, and each of
them once up to rotation, although it skips start nodes already visited.  It ends on
every finite graph.  Run on the dictionary of a `CycleError` it lists the cycles of
the original input.

**Worker protocol.**  A step relation gives all interleavings of the dispatcher, the
workers and the signal.  In every run that ends, each job is taken from the queue once and
collected once, and each worker takes one stop job, never while a real job is still queued.
A job that was neither skipped nor interrupted was executed once and carries the
code of that execution; the others were never executed.  The number of moves is bounded,
and no run gets stuck unless there are jobs but no threads.  The counters add up to the
jobs that were not interrupted, each counts the jobs of its kind, and the result is 0
exactly when every job succeeded or was skipped and none was interrupted.  A job is marked
as interrupted exactly when the signal had come before its worker looked at the flag; such
a job is never executed and makes the result 1, and after the signal no job is started.

**Path gathering.** `DoGather` appends the records of exactly the simple walks from a
type, each walk once, in depth-first preorder, and leaves its two stacks as they were.
The edges out of a type are those of its attributes, its subtypes and its aggregates, in
this order, and a type gets a path exactly when they connect it with the root.  A record
is repeated exactly when such a walk ends at a type with two equal edges to a type it has
not been to.

**Mini shell.** A token list is accepted exactly if a grammar derives it, and parsing
inverts a canonical rendering on exactly the pipelines that it can produce.  `run`
computes the right-nested reading of the `&&`/`||` chain over any exit statuses.  An audit
of its log shows that it starts the first commands of the pipeline in order, each in the
directory that the `cd` commands before it lead to and on the files it was given, waits
for each once, and closes every file afterwards.  Compared with the AND-OR lists of
section 2.9.3 of the POSIX.1-2017 Shell Command Language, in which a `cd` is a pipeline of
its own with status 0, it returns the status of the list for all statuses of the commands
exactly when no `&&` comes after a `||` and no command's `&&` before one.  In other words,
the operators between the stages are all the same and no `cd` comes after a `||`: a `cd`
and its `&&` in front of a chain of `||` do no harm, but `a || cd d && b` is read
differently.

**Patches.**  Writing and reading back gives the same patches if and only if they are
printable: no newline inside a text, no negative position, no removed line that starts
with `-- `, no added line that starts with `++ `.  Reading and writing a text replaces
only the counts in chunk headers, by the numbers of lines that follow, exactly when the
text has the layout that `write` uses; it changes nothing at all exactly when in addition
those counts were true.  Reading fails exactly at the first line that is of no kind or
stands too early, with the error of that line.

**Timelines, combinatorics, arithmetic.**  In ordered ranges, touching ones included, the
bounds show all of a window exactly when one of its ends lies in a range or no range lies
inside it, and add nothing exactly when no range lies beyond an end that is not hit.  In
sorted events every window keeps all its events exactly when no two have the same time; a
single window does exactly when a bisection, which looks at positions only, tries the first
event at its start before the others of that time, and the last one at its end.
`permutations` lists the rearrangements of any list, n! of them.  The ripple counter,
`int2bin`, `bin2int` and the Gray code fit together.  `gcf`, `lcm` and `reduce_fraction` are
right for all integers with Python's floored division.

## Where the code and its comments differ

* The comment at `bindings/python/topsort.py:109` says that every left-over element has a
  child.  That is so exactly when no element without a child is reachable from a cycle
  (`TopSortTheorems.CommentHoldsIff`); `LeftOverWithoutChild` gives an input where one is.
  What always holds is that every left-over element has a left-over parent.
* `Pipeline.run(verbose=True)` reads the variable `retval` before it is assigned, at every
  `&&` and `||` (`waf-tools/shellcmd.py:322`, 325, 340, 343).  The model raises
  UnboundLocalError there; `ShellPosix.VerboseReturnsIffOneStage` says when it does not,
  and `VerboseFails` gives the shortest chain for which it does.
* `Uniquefy` (`utils/print-introspected-doxygen.cc:1161`) works on a copy, so the gathered
  output is not deduplicated.  The model keeps the output as a sequence.
  `TypePathRepeats.GatherRepeatsIffTwin` says when a record is repeated, and
  `PairTwiceRepeats` gives such registries.
* `int2bin` with width 0 skips its range check (`BinaryWords.ZeroWidthAcceptsAll`); the check
  works exactly for the positive widths (`ChecksRangeIffPositive`).  `binary_range(0)` is empty.
* `get_ranges_bounds` returns an empty window when neither end lies in a range, even if a
  range lies inside the window; `GetRangesBounds` states exactly when the window is right,
  and `Timeline.InsideIsMissed` gives a window that is not.
* `get_events_bounds` may cut off events at an end of the window, when several have that time:
  `Timeline.EqualStampsAreCut` gives such a window.  All windows are free of this exactly when
  no two events have the same time (`AllWindowsKeepIffDistinct`), a window of one instant
  exactly when at most one event lies there (`InstantKeepsIffOnlyOnce`), and `KeepsIffTried`
  decides it for every single window from the positions of the events at its two ends.

## Model

| member | source | states |
|---|---|---|
| `Pending.CountParents` | bindings/python/topsort.py:77-90 | the counting loop leaves every element as a key, the graph of the pairs, and counts that match the lists with multiplicity |
| `Pending.CountPair` | bindings/python/topsort.py:79-90 | one pair adds both elements, one listing of the child, and one parent; counts and lists stay consistent |
| `Pending.PairEdges` | bindings/python/topsort.py:90 | the edges of the graph built are exactly the pairs |
| `Pending.PairGraphCounts` | bindings/python/topsort.py:87-90 | a child is pending once for every pair that names it, so duplicate pairs are counted |
| `Pending.PendingIffEdge` | bindings/python/topsort.py:87-90 | a count is positive exactly when some listed parent has the element as a child |
| `TopSort.Parentless` | bindings/python/topsort.py:93 | the elements whose count is zero, each once |
| `TopSort.KidsAreCounted` | bindings/python/topsort.py:100-102 | no KeyError: the children of a parentless element are counted and are not the element itself, and no count falls below zero |
| `TopSort.KnockDown` | bindings/python/topsort.py:100-103 | every child loses one parent per listing, and exactly those that reach zero are appended, once |
| `TopSort.QueueStep` | bindings/python/topsort.py:97-106 | one round keeps the queue: distinct, the waiting elements are those with count zero, the dictionaries hold the rest of the graph |
| `TopSort.LayeredStep` | bindings/python/topsort.py:97-106 | one round keeps the depths along the growing list nondecreasing, with at most two consecutive depths waiting |
| `TopSort.FreedDepth` | bindings/python/topsort.py:101-103 | an element freed by its last parent lies exactly one level below that parent |
| `TopSort.Release` | bindings/python/topsort.py:97-106 | the loop body keeps both queue invariants and removes a key |
| `TopSort.TopSort` | bindings/python/topsort.py:61-112 | the answer holds each element not below a cycle once, by increasing longest-path depth; CycleError exactly on cyclic input, with the left-over dictionaries |
| `TopSort.StuckBelowCycle` | bindings/python/topsort.py:108-111 | when no left-over element has count zero, all of them lie on or below a cycle |
| `TopSort.EndIsCorrect` | bindings/python/topsort.py:108-112 | the sort has output exactly the elements not below a cycle, and ends normally exactly when there is no cycle |
| `TopSort.CountDown` | bindings/python/topsort.py:222-223 | every child loses one parent per listing, or a KeyError if one has no count |
| `TopSort.RemoveOne` | bindings/python/topsort.py:217-224 | one element leaves both dictionaries or a KeyError is raised; matching counts stay consistent and the rest of the level at zero |
| `TopSort.RemoveLevel` | bindings/python/topsort.py:217-224 | a whole level leaves both dictionaries or a KeyError is raised; with matching counts there is none and they stay consistent |
| `TopSort.LevelIsDepth` | bindings/python/topsort.py:205-212 | after k levels a left-over element has count zero exactly when no longer walk ends in it |
| `TopSort.AdvanceLevel` | bindings/python/topsort.py:212-224 | yielding a level: level k is exactly the elements of depth k, what is left has a walk of k+1 edges |
| `TopSort.TopSortLevelsCore` | bindings/python/topsort.py:174-232 | for any two dictionaries no element is yielded twice, and the end says what is left, or is a KeyError; when counts match lists there is no KeyError, level k holds exactly the elements of depth k, and the end is CycleError exactly on cyclic input |
| `TopSort.TopSortLevels` | bindings/python/topsort.py:114-172 | the same for a list of pairs |
| `TopSortTheorems.ParentsComeFirst` | bindings/python/topsort.py:61-76 | every parent of an answered element is answered, and earlier |
| `TopSortTheorems.SortSucceedsIffAcyclic` | bindings/python/topsort.py:61-112 | CycleError if and only if there is a cycle; otherwise a permutation of all elements with parents first; left-over keys are exactly the elements below a cycle |
| `TopSortTheorems.LeftOverHasParent` | bindings/python/topsort.py:108-111 | every left-over element has a left-over parent |
| `TopSortTheorems.CommentHoldsIff` | bindings/python/topsort.py:109-110 | every left-over element has a child if and only if no element without a child lies on or below a cycle |
| `TopSortTheorems.CommentHoldsIffOnPairs` | bindings/python/topsort.py:109-110 | the same for pairs: no element that is never a parent lies on or below a cycle |
| `TopSortTheorems.LeftOverWithoutChild` | bindings/python/topsort.py:109-110 | on [(1,2),(2,1),(2,3)] the element 3 is left over without a child |
| `TopSortTheorems.SameEnding` | bindings/python/topsort.py:226-232 | both sorts end normally or with the same left-over dictionaries |
| `TopSortTheorems.AnswerCutsIntoLevels` | bindings/python/topsort.py:92-106 | cutting the answer of topsort by level sizes gives, as multisets, the levels of topsort_levels |
| `TopSortTheorems.CutsCoverAnswer` | bindings/python/topsort.py:203-224 | the levels together are as long as the answer |
| `TopSortTheorems.CycleErrorKeepsCycles` | bindings/python/topsort.py:96-111 | the children dictionary of a CycleError has the same simple cycles as the input, at least one |
| `TopSortTheorems.CycleErrorListsCycles` | bindings/python/topsort.py:343-385 | find_cycles on that dictionary lists the cycles of the input, equally many and at least one |
| `Graphs.BelowCycleOrDepth` | bindings/python/topsort.py:108-112 | an element has a longest-path depth, smaller than the number of elements, exactly when it is not on or below a cycle |
| `Rotations.IsRotated` | bindings/python/rad_util.py:735-775 | true exactly when some rotation of one list equals the other; IndexError exactly for two empty lists |
| `Rotations.RotationTransitive` | bindings/python/rad_util.py:735-775 | rotations of rotations are rotations |
| `FindCycles.IsDuplicate` | bindings/python/topsort.py:371-375 | whether a rotation of the cycle is listed |
| `FindCycles.Record` | bindings/python/topsort.py:367-378 | the closed cycle is listed afterwards up to rotation, and the list keeps holding distinct simple cycles |
| `FindCycles.Expand` | bindings/python/topsort.py:362-385 | every cycle that an edge from the end of the path closes is found, and every other child continues the path on the stack |
| `FindCycles.WeightDrops` | bindings/python/topsort.py:352-353 | replacing a path by at most b longer simple paths makes the stack lighter |
| `FindCycles.PathSize` | bindings/python/topsort.py:351-383 | paths on the stack are simple and no longer than the number of nodes |
| `FindCycles.ExploreOne` | bindings/python/topsort.py:352-385 | a pop keeps every simple path from the start dealt with or pending, and lowers the weight |
| `FindCycles.ClosedFindsCycle` | bindings/python/topsort.py:351-385 | if every simple path from a start was expanded, every cycle it reaches is found |
| `FindCycles.ExploreFrom` | bindings/python/topsort.py:351-385 | every cycle that the start reaches is found; only reachable nodes are marked visited |
| `FindCycles.CoveredAfter` | bindings/python/topsort.py:347-349 | skipping visited start nodes loses no cycle |
| `FindCycles.FindCycles` | bindings/python/topsort.py:235-385 | only simple cycles, all of them, no two rotations of each other; terminates on every finite graph |
| `FindCycles.ExactlyOnce` | bindings/python/topsort.py:235-242 | every simple cycle matches exactly one listed cycle |
| `FindCycles.SameCyclesSameLists` | bindings/python/topsort.py:235-385 | graphs with the same cycles get equally long lists with the same cycles |
| `WorkerProtocol.StepKeeps` | test.py:965-1033 | every step of every thread keeps the invariant: each job is in exactly one place, stop jobs become exits, queues stay in order |
| `WorkerProtocol.RunKeeps` | test.py:965-1033 | every state of every interleaving satisfies it |
| `WorkerProtocol.GetConserves` | test.py:967-973 | taking an item moves one job to one worker, or turns one stop job into one exit |
| `WorkerProtocol.StopsAreLast` | test.py:1667-1670 | once a worker has stopped, all jobs were queued and only stop jobs are left in the queue |
| `WorkerProtocol.NoBreakWithoutInterrupt` | test.py:979-982 | without the signal no collected job is marked as interrupted; `WorkerInterrupt.MarkedIffFlagSeen` says when one is |
| `WorkerProtocol.SomethingMoves` | test.py:1689-1690 | until everything is collected and joined, some thread can move, given a thread |
| `WorkerProtocol.DeadlockFreeIffThreads` | test.py:1399-1402 | no interleaving gets stuck if and only if there are threads or no jobs |
| `WorkerProtocol.StepCosts` | test.py:965-1033 | every step but the signal uses up at least one of the steps left |
| `WorkerProtocol.RunsAreShort` | test.py:965-1033 | at most six moves per job and three per thread in any interleaving |
| `WorkerProtocol.TallyAdds` | test.py:1689-1718 | the five counters add up to the collected jobs that were not interrupted; passed and skipped are all exactly when every job is good; `WorkerProtocol.TallyCounts` gives each counter |
| `WorkerProtocol.TallyCounts` | test.py:1691-1718 | passed, failed, valgrind and crashed are the numbers of the jobs neither interrupted nor skipped whose return code is 0, 1, 2 and any other; skipped is the number of skipped ones that were not interrupted |
| `WorkerProtocol.ResultsAreExecutions` | test.py:1007-1033 | in any interleaving a collected job carries the code of its one execution, and a skipped or interrupted one was never executed |
| `WorkerProtocol.FinalAccount` | test.py:1828-1916 | at the end of any interleaving every job is collected once, with the code of its one execution if it was neither skipped nor interrupted; all threads have stopped, queues are empty, the counters add up, and the status is 0 exactly when all jobs are good |
| `WorkerProtocol.TakenOnce` | test.py:967-973 | a run to the end takes every real job and every stop job from the queue exactly once, and each worker takes exactly one stop job |
| `WorkerProtocol.CollectedInOrder` | test.py:1689-1690 | results are collected in the order in which the workers reported them, and the rest is still queued |
| `WorkerProtocol.CollectResults` | test.py:1682-1718 | the collecting loop computes the five counters, each the number of jobs of its kind, and the final test the status |
| `WorkerInterrupt.FlagIffSignalled` | test.py:572-576 | the flag is up exactly after the signal, and stays up |
| `WorkerInterrupt.NothingStartsAfterSignal` | test.py:979-982 | a process that ends after the signal runs a job that its worker was running already when the signal came |
| `WorkerInterrupt.MarkedIffFlagSeen` | test.py:979-982 | for every collected job one worker looked at the flag once, and the job is marked exactly if the flag was up |
| `WorkerInterrupt.LookedAtAfterSignal` | test.py:979-982 | a job at which a worker looks after the signal is collected marked and has no execution |
| `WorkerInterrupt.InterruptDecides` | test.py:979-982 | at the end some job is marked if and only if some worker looked at the flag after the signal, and then the status is 1 |
| `TypePaths.StaticInformation.constructor` | utils/print-introspected-doxygen.cc:1032-1051 | everything is empty at the start |
| `TypePaths.StaticInformation.RecordAggregationInfo` | utils/print-introspected-doxygen.cc:1056-1076 | a pair of known types is appended; otherwise the first unknown name is noted |
| `TypePaths.StaticInformation.GetCurrentPath` | utils/print-introspected-doxygen.cc:1091-1102 | the current path as text, a slash before every step |
| `TypePaths.StaticInformation.RecordOutput` | utils/print-introspected-doxygen.cc:1105-1110 | one record is appended: the type and the current path |
| `TypePaths.StaticInformation.HasAlreadyBeenProcessed` | utils/print-introspected-doxygen.cc:1113-1125 | whether the type is on the stack of open types |
| `TypePaths.StaticInformation.Get` | utils/print-introspected-doxygen.cc:1128-1142 | the paths recorded for a type, in order |
| `TypePaths.StaticInformation.FollowAttribute` | utils/print-introspected-doxygen.cc:1196-1232 | a pointer to another type than Object, or a container, is followed with its label and the stacks are restored |
| `TypePaths.StaticInformation.GatherAttributes` | utils/print-introspected-doxygen.cc:1194-1233 | the output of all attribute edges in order is appended |
| `TypePaths.StaticInformation.FollowChild` | utils/print-introspected-doxygen.cc:1236-1245 | a registered subtype is followed with its label |
| `TypePaths.StaticInformation.GatherChildren` | utils/print-introspected-doxygen.cc:1234-1246 | the output of all subtype edges in order is appended |
| `TypePaths.StaticInformation.FollowAggregate` | utils/print-introspected-doxygen.cc:1249-1267 | an aggregated type is followed in either direction |
| `TypePaths.StaticInformation.GatherAggregates` | utils/print-introspected-doxygen.cc:1247-1268 | the output of all aggregate edges in order is appended |
| `TypePaths.StaticInformation.Descend` | utils/print-introspected-doxygen.cc:1214-1218 | pushing, recursing and popping restores both stacks |
| `TypePaths.StaticInformation.DoGather` | utils/print-introspected-doxygen.cc:1185-1269 | appends exactly the specified output and restores both stacks; terminates because the open types are distinct and registered |
| `TypePaths.StaticInformation.Gather` | utils/print-introspected-doxygen.cc:1176-1182 | the same from a root, with empty stacks |
| `TypePaths.WalksAreSimple` | utils/print-introspected-doxygen.cc:1113-1125 | the search visits exactly the walks that repeat no type |
| `TypePaths.WalksOrdered` | utils/print-introspected-doxygen.cc:1185-1269 | in depth-first preorder |
| `TypePaths.OutputMatchesWalks` | utils/print-introspected-doxygen.cc:1185-1269 | the output has one record per visited walk: its last type and its labels |
| `TypePaths.GatherIsPreorder` | utils/print-introspected-doxygen.cc:1176-1269 | gathering from a root lists exactly the simple labelled walks, each once, in preorder |
| `TypePaths.OrderedIsDistinct` | utils/print-introspected-doxygen.cc:1185-1269 | no walk is listed twice |
| `TypePaths.Simplify` | utils/print-introspected-doxygen.cc:1185-1269 | every reachable type is reached by a walk without repetitions |
| `TypePaths.RecordedIffReachable` | utils/print-introspected-doxygen.cc:1176-1269 | a type is recorded exactly when it can be reached from the root |
| `TypePaths.GetFindsReachable` | utils/print-introspected-doxygen.cc:1128-1142 | Get has a path exactly for the reachable types |
| `TypePaths.LeftDrops` | utils/print-introspected-doxygen.cc:1214-1218 | pushing a registered type that is not open leaves fewer types to open |
| `TypePathEdges.EdgesInOrder` | utils/print-introspected-doxygen.cc:1193-1268 | the edges out of a type are one for every pointer attribute to another type than Object, every container attribute, every registered subtype and every aggregate pair, with these steps, in exactly this order |
| `TypePathEdges.GatherReachesConnected` | utils/print-introspected-doxygen.cc:1193-1268 | a type gets a path exactly when attributes, subtypes and aggregates connect it with the root |
| `TypePathEdges.TextHasSteps` | utils/print-introspected-doxygen.cc:1091-1101 | the text of a path has the parts of its steps between its slashes, in order |
| `TypePathEdges.GetListsRecords` | utils/print-introspected-doxygen.cc:1128-1142 | Get lists exactly the texts recorded for the type, as often and in the order in which they were recorded |
| `TypePathRepeats.CleanPathsDiffer` | utils/print-introspected-doxygen.cc:1091-1102 | paths of slash-free names and container items are told apart by their text |
| `TypePathRepeats.RepeatsIffTwin` | utils/print-introspected-doxygen.cc:1176-1182 | on a graph whose steps decide their targets, a record is repeated exactly when a simple walk ends at a type with two equal edges to a type it has not been to |
| `TypePathRepeats.GatherRepeatsIffTwin` | utils/print-introspected-doxygen.cc:1159-1182 | for every registry a record is repeated if such a walk exists; with slash-free, different names only then |
| `TypePathRepeats.PairTwiceRepeats` | utils/print-introspected-doxygen.cc:1247-1268 | aggregating the same two types twice makes gathering from one of them record the other twice |
| `ShellParse.EnvMatchAssignment` | waf-tools/shellcmd.py:24 | the pattern accepts an assignment and splits it at its equals sign |
| `ShellParse.EnvMatchNewline` | waf-tools/shellcmd.py:24 | it also accepts one final newline |
| `ShellRoundTrip.Pipeline.CommitCommand` | waf-tools/shellcmd.py:101-104 | the current command moves to the pipeline; an assertion fails if there is none |
| `ShellRoundTrip.Pipeline.CommandToken` | waf-tools/shellcmd.py:154-179 | the COMMAND branch follows the specification, redirections and failed assertions included |
| `ShellRoundTrip.Pipeline.OneToken` | waf-tools/shellcmd.py:137-199 | the loop body follows the specification in all six states |
| `ShellRoundTrip.Pipeline.Parse` | waf-tools/shellcmd.py:121-201 | the fields end as the specified parse says, or an assertion fails exactly when it does |
| `ShellRoundTrip.ParseRender` | waf-tools/shellcmd.py:121-201 | parsing the canonical tokens of a well-formed pipeline gives it back, in whatever order assignments stand |
| `ShellRoundTrip.ParsedIsWellFormed` | waf-tools/shellcmd.py:136-201 | whatever is parsed is well formed |
| `ShellRoundTrip.ParseImage` | waf-tools/shellcmd.py:121-201 | the pipelines that parsing can return are exactly the well-formed ones |
| `ShellRoundTrip.ReparseIsStable` | waf-tools/shellcmd.py:121-201 | rendering what was parsed and parsing again changes nothing |
| `ShellRoundTrip.PipeIffPipeFollows` | waf-tools/shellcmd.py:164-169 | in a parsed pipeline stdout is PIPE exactly when a Pipe node follows |
| `ShellGrammar.ItemsOkIffValid` | waf-tools/shellcmd.py:156-198 | taking words and redirections one by one succeeds exactly when each of the three streams is redirected once at the most |
| `ShellGrammar.SentenceParses` | waf-tools/shellcmd.py:121-201 | every token list that the grammar derives is parsed to what the derivation stands for |
| `ShellGrammar.ParseIffDerivation` | waf-tools/shellcmd.py:121-201 | a token list is accepted with a result if and only if it has a derivation that stands for it; all others fail an assertion |
| `ShellRun.ExecPipedCommands` | waf-tools/shellcmd.py:203-212 | waits for every process in order and computes the status |
| `ShellRun.PipeStatusIsLast` | waf-tools/shellcmd.py:203-212 | the status of piped commands is that of the last one |
| `ShellRun.CloseFiles` | waf-tools/shellcmd.py:301-304 | every file but the null device is closed |
| `ShellRun.Run` | waf-tools/shellcmd.py:214-346 | for any list of nodes the loop has the specified outcome and log of opened files, processes, waits and closings |
| `ShellMeaning.RunMeans` | waf-tools/shellcmd.py:214-346 | on every pipeline parsing can produce, run has the outcome and log of the chain of stages, nested to the right |
| `ShellMeaning.LoopMeans` | waf-tools/shellcmd.py:222-346 | the same from any state of the loop |
| `ShellMeaning.ChdirMeans` | waf-tools/shellcmd.py:225-231 | a cd changes the directory of what follows, and cannot stand last or lack its directory |
| `ShellMeaning.StageEnds` | waf-tools/shellcmd.py:312-346 | an operator ends a stage: its files are closed, and the rest runs only if the operator lets it |
| `ShellMeaning.StageStatusIsPipeStatus` | waf-tools/shellcmd.py:203-212 | the status of a stage is that of its last command |
| `ShellMeaning.WireOpens` | waf-tools/shellcmd.py:242-274 | starting a command opens exactly the files kept for closing |
| `ShellMeaning.MeaningClosesAll` | waf-tools/shellcmd.py:300-304 | whenever a status is returned no opened file is left open |
| `ShellMeaning.RunClosesAll` | waf-tools/shellcmd.py:296-305 | run closes every file it opened whenever it returns a status |
| `ShellPosix.MeaningIsRightNested` | waf-tools/shellcmd.py:312-346 | run returns the right-nested reading of the stages' statuses |
| `ShellPosix.ReadingsAgreeIffUnmixed` | waf-tools/shellcmd.py:312-346 | the right-nested and the left-associative reading agree for all statuses exactly when the operators are all the same |
| `ShellPosix.CompleteIffCdsOk` | waf-tools/shellcmd.py:225-231 | run can only fail on a cd that lacks a directory or stands last |
| `ShellPosix.RunRaises` | waf-tools/shellcmd.py:225-231 | without verbose run returns a status or raises for the first bad cd: IndexError if it stands last, TypeError if it names no directory |
| `ShellPosix.RunReturns` | waf-tools/shellcmd.py:222-346 | run returns what reading the nodes from the left gives: a pipeline is decided by its last command, an operator that does not go on ends everything |
| `ShellPosix.ListIsLeftAssociative` | waf-tools/shellcmd.py:308-346 | reading the nodes one by one computes the left-associative AND-OR list of all pipelines and operators, with a cd as a pipeline of status 0 |
| `ShellPosix.PosixIffOneKind` | waf-tools/shellcmd.py:214-346 | run returns the status of the AND-OR list of section 2.9.3 for all statuses exactly when no && follows an or-operator and no && after a command comes before one |
| `ShellPosix.OneKindIffUnmixed` | waf-tools/shellcmd.py:214-346 | that is: the operators between stages are all the same, and no cd comes after an or-operator |
| `ShellPosix.CdAfterOrDiffers` | waf-tools/shellcmd.py:225-231 | with a cd after an or-operator run can return 0 where the list has status 1, although the stages have one operator only |
| `ShellPosix.CdFirstAgrees` | waf-tools/shellcmd.py:225-231 | a cd with its && before an or-operator is read the same way |
| `ShellPosix.VerboseReturnsIffOneStage` | waf-tools/shellcmd.py:320-343 | with verbose a status is returned exactly when the chain has a single stage; otherwise an unbound variable is read |
| `ShellPosix.VerboseFails` | waf-tools/shellcmd.py:340-343 | two commands joined by && raise with verbose and return a status without |
| `ShellPipes.StageSpawns` | waf-tools/shellcmd.py:242-291 | every process starts with its arguments, directory and environment, reading from its own redirection or from the process before it |
| `ShellPipes.ParsedIsPiped` | waf-tools/shellcmd.py:308-310 | in a parsed pipeline exactly the commands before the last of a stage write to a pipe |
| `ShellPipes.PipesConnect` | waf-tools/shellcmd.py:242-243 | both ends of every pipe are there: one process creates it and the next one reads from that process |
| `ShellLog.JoinIs` | waf-tools/shellcmd.py:228 | joining two paths gives the second if it is absolute, else both with one slash between them unless there is no first one |
| `ShellLog.JoinParts` | waf-tools/shellcmd.py:228 | the parts of the joined path are those of both, or of the second if that is absolute |
| `ShellLog.RunLog` | waf-tools/shellcmd.py:214-346 | on every parsed pipeline the log passes the audit: processes are the first commands in order and started right, files have handles of their own and are closed while nothing runs, and when a status is returned every process was waited for once and in order |
| `ShellLog.EveryProcessIsRight` | waf-tools/shellcmd.py:241-289 | every process has the words, variables and directory it should, reads from the process before it or from the file opened for reading under its name, and writes to files opened for writing under theirs |
| `PatchSet.NumberOfDigits` | utils/check-style.py:292-293 | reading the printed digits of a number gives the number |
| `PatchRoundTrip.LongerPrefix` | utils/check-style.py:360-364 | a written line reads as a file header exactly when its text starts with the rest of the mark |
| `PatchRoundTrip.StepBodyLine` | utils/check-style.py:384-401 | a written body line is read back as that line |
| `PatchRoundTrip.HeaderReads` | utils/check-style.py:292-293 | a written chunk header is read back as its four numbers |
| `PatchRoundTrip.ParsePatchset` | utils/check-style.py:359-403 | the loop returns the specified patches, or the exception of the first line that fails |
| `PatchRoundTrip.ParseLine` | utils/check-style.py:368-402 | the first pattern that matches decides; the current chunk stays on an earlier patch until the next chunk header |
| `PatchRoundTrip.CountLines` | utils/check-style.py:254-285 | the source length is the number of lines that are not added, the destination length of those that are not removed |
| `PatchRoundTrip.SidesAreNumbers` | utils/check-style.py:192-203 | the same for the two lists that the source measures |
| `PatchRoundTrip.WriteChunk` | utils/check-style.py:286-295 | the header with the true counts, then every line behind its mark |
| `PatchRoundTrip.WritePatch` | utils/check-style.py:348-357 | the two file names, then all chunks |
| `PatchRoundTrip.ReadBack` | utils/check-style.py:348-403 | printable patches are read back from their text |
| `PatchRewrite.ReadBackAnyHeaders` | utils/check-style.py:362-383 | also from any text that differs in chunk headers with the same positions only, such as other counts, leading zeros or more text after the header |
| `PatchRoundTrip.ParsedIsPrintable` | utils/check-style.py:359-403 | whatever is read is printable |
| `PatchRoundTrip.RoundTripIffPrintable` | utils/check-style.py:348-403 | writing and reading back gives the same patches if and only if they are printable |
| `PatchRoundTrip.RewriteIsStable` | utils/check-style.py:348-403 | writing what was read and reading it again changes nothing |
| `PatchRewrite.RewriteKeepsLinesIffLayout` | utils/check-style.py:348-403 | reading and writing a text changes nothing but chunk headers with the same positions if and only if file names come in pairs, chunks after a pair, body lines after a header, and all these lines end |
| `PatchRewrite.RewriteFixesCounts` | utils/check-style.py:286-295 | it changes only counts if and only if in addition every chunk header is as write prints its numbers; the counts it writes are those of the lines that follow |
| `PatchRewrite.RewriteIsIdentityIff` | utils/check-style.py:286-295 | it changes nothing if and only if moreover every count was true |
| `PatchRoundTrip.WrittenCountsAreTrue` | utils/check-style.py:292-293 | in the text of a written chunk the header carries the numbers of the lines after it that begin with a minus or a space, and with a plus or a space |
| `PatchRoundTrip.WrittenTextIsTrue` | utils/check-style.py:286-357 | so do all chunk headers in the text written for whole patches |
| `PatchRoundTrip.WrittenExample` | utils/check-style.py:204-295 | the text of a chunk with a removed and an added line |
| `PatchErrors.AfterIff` | utils/check-style.py:360-365 | a pattern of a mark and the rest of the line matches exactly the lines of that form |
| `PatchErrors.ReadHeaderIff` | utils/check-style.py:362 | the chunk pattern matches exactly its mark, four numerals with their separators, the closing mark and anything after it |
| `PatchErrors.SplitLinesKeeps` | utils/check-style.py:368 | iterating over a file yields its text, cut after every newline |
| `PatchErrors.ParseFailsAtFirstFault` | utils/check-style.py:359-403 | reading succeeds if and only if no line is at fault, and raises for the first that is: AttributeError for a name or header before any source file, UnboundLocalError for a body line before any chunk header, the final exception for a line of no kind |
| `PatchErrors.NoNewlineMarkFails` | utils/check-style.py:402 | a line that begins with a backslash, as diff writes for a missing final newline, makes reading fail |
| `Timeline.TimelineDataRange.AddRange` | utils/grid.py:123-129 | a range is appended |
| `Timeline.TimelineDataRange.Search` | utils/grid.py:105-122 | for any ranges one that contains the key, or -1; in ordered ranges, touching ones included, -1 exactly when none does |
| `Timeline.SeekFinds` | utils/grid.py:112-122 | bisecting ordered ranges misses no key, also where ranges touch |
| `Timeline.HitsTried` | utils/grid.py:112-122 | when the key is found, no earlier range that contains it is passed over if and only if a bisection of positions tries the first of those ranges first, and no later one if and only if it tries the last one first |
| `Timeline.TriedFirst` | utils/grid.py:112-122 | if one position of a set is tried before all others, the lowest or highest is tried first exactly when it is that one |
| `Timeline.ApartTried` | utils/grid.py:105-122 | where no ranges touch, those conditions on the ends always hold |
| `Timeline.TimelineDataRange.GetRangesBounds` | utils/grid.py:153-169 | for any ranges the bounds made of the two searches; in ordered ones, for a window in order, no overlapping range is lost if and only if an end is hit or none lies inside, no range that only touches either if and only if moreover the first range at the start and the last at the end are tried first, and none that does not meet it is kept if and only if none lies beyond an end that is not hit; a window out of order keeps at most a range with both ends |
| `Timeline.InsideIsMissed` | utils/grid.py:162-163 | a range inside a window whose ends miss every range is left out |
| `Timeline.EarlierIsKept` | utils/grid.py:164-165 | when only the end is hit, ranges before the window are kept |
| `Timeline.BoundsFacts` | utils/grid.py:160-169 | what the bounds made of the four outcomes of the searches cover and add |
| `Timeline.TimelineEvent.AddEvent` | utils/grid.py:219-225 | an event is appended |
| `Timeline.TimelineEvent.Search` | utils/grid.py:201-218 | for any events the end of the bisection; in sorted ones an event at the key, or else the first later one |
| `Timeline.TimelineEvent.GetEventsBounds` | utils/grid.py:236-245 | in sorted events every event strictly inside is kept, those at the ends too exactly when a bisection comes first to the first event of the start and to the last of the end, for one instant exactly when there is one event; at most the first later one is added, exactly when no event lies at the end but later ones exist |
| `Timeline.ProbeFinds` | utils/grid.py:207-218 | where the search ends: at the key, or at the first later event |
| `Timeline.WindowKeeps` | utils/grid.py:243-245 | every event strictly inside the window is kept, and all of them if there is only one at each end |
| `Timeline.ProbeIsFirstTried` | utils/grid.py:207-218 | among equal stamps the search stops at the position that a bisection of positions tries in the fewest rounds |
| `Timeline.KeepsIffTried` | utils/grid.py:236-245 | a window keeps all events from its start to its end if and only if the first event at its start comes before the others of that time in the bisection, and so does the last one at its end |
| `Timeline.InstantKeepsIffOnlyOnce` | utils/grid.py:236-245 | the window from a time to itself keeps all its events if and only if there are no two of them |
| `Timeline.AllWindowsKeepIffDistinct` | utils/grid.py:236-245 | every window keeps all its events if and only if no two events have the same time |
| `Timeline.WindowAdds` | utils/grid.py:243-245 | which later event they add |
| `Timeline.EqualStampsAreCut` | utils/grid.py:211-212 | of three events at one time the window from that time to itself keeps only the middle one |
| `Permutations.ListPermutations` | bindings/python/rad_util.py:310-326 | the recursion with its two loops computes the specified list |
| `Permutations.AppendInsertions` | bindings/python/rad_util.py:320-323 | the first item is inserted at every position |
| `Permutations.PermsAreRearrangements` | bindings/python/rad_util.py:310-326 | a list is among the results if and only if it has the multiset of the input |
| `Permutations.PermsCount` | bindings/python/rad_util.py:310-326 | there are n! results |
| `Permutations.PermsDistinct` | bindings/python/rad_util.py:310-326 | for pairwise distinct items no result is repeated |
| `BinaryWords.Int2BinFits` | bindings/python/rad_util.py:91-105 | for positive width the conversion succeeds exactly on numbers below 2^n, with a word of that width and value |
| `BinaryWords.HexBitsValue` | bindings/python/rad_util.py:91-96 | the bits of the hexadecimal digits stand for the number |
| `BinaryWords.WordRoundTrip` | bindings/python/rad_util.py:91-130 | int2bin undoes bin2int on words of positive width |
| `BinaryWords.ValueInjective` | bindings/python/rad_util.py:130 | words of one length are told apart by their values |
| `BinaryWords.ZeroWidthAcceptsAll` | bindings/python/rad_util.py:100-105 | width 0 skips the range check |
| `BinaryWords.ChecksRangeIffPositive` | bindings/python/rad_util.py:98-105 | only numbers below 2^n are accepted if and only if the width n is positive |
| `BinaryWords.Increment` | bindings/python/rad_util.py:649-659 | the ripple loop adds one, and the last toggle is the carry |
| `BinaryWords.BinaryRange` | bindings/python/rad_util.py:639-660 | for positive width 2^bits words, the k-th with value k; nothing for width 0; terminates |
| `BinaryWords.RangeIsInt2Bin` | bindings/python/rad_util.py:639-660 | the k-th word listed is int2bin of k |
| `BinaryWords.EncodeIsGray` | bindings/python/rad_util.py:615 | shift and exclusive or give, for every bit, whether it differs from the one above |
| `BinaryWords.GrayPermutes` | bindings/python/rad_util.py:612-615 | gray_encode permutes the n-bit numbers |
| `BinaryWords.GrayNeighbours` | bindings/python/rad_util.py:612-615 | codes of consecutive numbers differ in exactly one bit |
| `BinaryWords.GrayWraps` | bindings/python/rad_util.py:612-615 | so do the last and the first code of a width |
| `BinaryWords.FlipsAtBit` | bindings/python/rad_util.py:91-105 | words whose values differ in one bit differ in that place only |
| `BinaryWords.GrayWordsFlip` | bindings/python/rad_util.py:612-660 | along the numbers of a width the words of the codes change in exactly one place, also from the last to the first |
| `BinaryWords.GrayVisitsOnce` | bindings/python/rad_util.py:612-660 | and every word of the width is met exactly once |
| `Euclid.FloorModSmall` | bindings/python/rad_util.py:255 | the floored remainder lies between zero and the divisor, on the side of the divisor |
| `Euclid.SameDivisors` | bindings/python/rad_util.py:254-257 | one round keeps the common divisors |
| `Euclid.Gcf` | bindings/python/rad_util.py:252-258 | for all integers the greatest common divisor, which is also a combination of the two numbers; terminates |
| `Euclid.GcdUnique` | bindings/python/rad_util.py:252-258 | there is only one greatest common divisor |
| `Euclid.Lcm` | bindings/python/rad_util.py:285-290 | for all integers a common multiple that divides every common multiple, with gcf * lcm equal to the product |
| `Euclid.ReduceFraction` | bindings/python/rad_util.py:345-348 | a coprime pair of equal ratio, scaled by a positive factor; fails exactly on (0, 0) |

## Left out

- Timeline.TimelineDataRange.GetRangesBounds: for ranges out of order it only says which bounds are cut.
- Timeline.TimelineEvent.GetEventsBounds: for events out of order it only says which bounds are cut.
- TypePathRepeats.GatherRepeatsIffTwin: that nothing else repeats a record is stated for slash-free, different type and attribute names, with which a path can be read back; without them two different walks may have the same text.
- TypePaths.StaticInformation.RecordAggregationInfo: the lookup of a type by name is a map given as a parameter; building the aggregation list from constructed objects is not modelled.
- ShellRun.Run: commands always start and files can always be opened; errors of the operating system, and the `finally` clauses they would reach, are not modelled.
- ShellPosix.PosixIffOneKind: only statuses are compared, and every `cd` is taken to succeed; `run` notices a missing directory when the next command starts.
- BinaryWords.GrayEncode: for numbers that are not negative only.
- Dictionaries and lists that stay inside one function are values held in variables, so aliasing is not captured; in particular a caller that changes a cycle already yielded by `find_cycles`.
- The patch objects of `check-style.py` are values, and the current chunk is a pair of indices; a patch changed through another reference is not captured.  A chunk line whose type was never set is not modelled.
- Generators run to their end; a caller that stops early is not modelled.  The order in which a Python 2 dictionary lists its keys is arbitrary.
- Running a job is replaced by any integer status; the dispatcher's choice of jobs, the XML and text reports and the timing are left out.  A job is identified by its place in the queue.
- `IsChildOf` and the attributes of a type come from the type registry, which is any relation and any finite list.
- In assignments of the shell `\S` matches what it does in text of Python 3, while the sorts are modelled in Python 2.
- `shlex.split`, and the messages printed by the shell with `verbose`.  Lines in patches end with a line feed only.
- `get_abbreviated_command`: its second test for `And` means that `||` is never printed, so it is no inverse of `parse`.
- `remove_trailing_whitespace_changes`: it can edit shared context lines and has no clean specification.
- The float paths of `gcf` and `lcm` and the other floating-point helpers of `rad_util.py`.
- Sorting, bounds and drawing in `grid.py`, calls of `uncrustify` and `patch`, build-system plumbing, bindings, and the simulated switch protocols, whose sources are not part of this model.
