# Verified model of the Proofbound mechanical core

Dafny 4.11 models of the parts of Proofbound whose correctness rests on reasoning rather than on
wiring: the crash-resumable bounded series, the dependency traversals, process ownership and
teardown, contract identity, the launch ledger, and the context accounting. `dafny verify
dfyconfig.toml` checks everything.

## What is modelled

**The bounded series** (`SeriesRecord`, `SeriesMachine`, `SeriesSafety`, `SeriesChoices`, `SeriesMoney`,
`SeriesRestart`, `SeriesRun`). A state machine of the record on disk, the memory of the running
process, and the calls really made of the attempt function. Hosts and attempts are adversarial and a
kill may come between any two steps; it loses the memory and keeps the last checkpoint, because a
record is written by atomic replacement. Every theorem is about whole histories of runs, kills and
restarts. `SeriesChoices` says of the record, the host and the report alone what each choice of a run
comes to. `SeriesRun` then gives the run procedure itself, over a mutable world outside the process
that logs every checkpoint and every attempt: each entry is one step of the machine on from the entry
before it, with nothing written or asked in between. So a run's checkpoints only extend each other, and a
run cut short at any of them, and any sequence of such runs, is one of the machine's histories.
Money is in exact integer units.

**Schedules** (`Schedule`, `Experiment`). The frozen order of a series, the three-coordinate order of
a closed-world experiment, and the composite identifiers of the measurement store.

**Dependency graphs** (`Ordering`, `Dag`, `Topological`). Cycle refusal and dependency order, both
with an explicit stack, as loops over updated colours, stacks and lists.

**Teardown** (`Ownership`, `Teardown`). Which rows of a process table an attempt owns, and the
signal, settle, escalate procedure. Successive tables and liveness answers are arbitrary streams.

**Contract identity** (`ArtifactIdentity`, `PosixPath`, `Json`, `Freeze`, `ChangeGraph`). Canonical
text bytes at the level of UTF-8, accepted path spellings, a canonical JSON printer and the strict
reader that undoes it, the freeze validator, and graph satisfaction as what makes derivation safe.

**Launches** (`LaunchLedger`, `Attribution`). Admission, reservation and classification of launch
slots, and the matching of attempts with database sessions.

**Context accounting** (`Lineage`, `Context`, `ContextEvidence`, `ContextSession`, `ContextLedger`). The
decomposition of a delivered text, the precedence table that attributes it, what that table may and may not
conclude from a part and the memory it meets, the session memory that lets a replay keep
its history, and the byte ledger.

Code that updates things in place is a class or a method with loops, proved against a specification
function or predicate; code made of expressions is functions with lemmas.

## Where the code and its text differ

Each is kept as the code has it, and stated exactly.

- A stop is called a property of the evidence (`evals/_mlr_series.py:490-494`). It is one exactly when
  `Recorded` holds: an attempt that reports no `trajectory_began` stops its run on C and a failed
  attempt whose own preflight found a leak stops its run on G, and after either a restart may call the
  attempt function again for that slot; a host with the wrong executor (H) or with residue (G) also
  stops only the run that saw it. `SeriesRestart.StopIsPermanentIff`, `SeriesRestart.TwoStopsAreLost`.
- Nothing unowned is said to be in a signalled group (`scripts/_attempt_teardown.py:203-205`). Two kinds of
  process may be: one protected by the controller's ancestry, and, because a group once led is signalled
  for the rest of the call (line 267), anything that runs in a group whose leader has gone.
  `Teardown.SignalledGroupsHoldOwned` gives the exact condition for the table of any look,
  `Ownership.ControllerInLedGroup` an instance of the first kind and `Teardown.StaleGroupHoldsAStranger`
  of the second.
- The path tests mean to reject every alternate spelling; they also accept `.`, whose one segment
  vanishes before it can be refused (`PosixPath.AcceptedIff`). The digest test also accepts a digest
  followed by one newline (`Freeze.DigestOkIff`).
- No identifier is said to contain the separator (`evals/_experiment.py:49`); instance names may. The
  composite is injective all the same, but splitting it fails for exactly those instances
  (`Experiment.SlotIdInjective`, `Experiment.SplitSlotIff`, and `Experiment.BarredInstanceLoads` for an
  experiment that loads with one).
- `resolve_origin` has no answer for one kind of part: one or two opcode lines that are at least half of
  an unsettled text nothing was said about (`Context.AttributionFailsIff`, `Context.OneOpcodeLineFails`).
- The contradiction net is said to catch a classifier that stopped attributing something
  (`evals/_mlr_context.py:987-989`). The classifier as it is trips it too, on some parts that are neither
  a tool's nor a user's: `Context.NetTripsIff` gives the exact condition from the part, the session
  before it and its request, and `Context.NamingPatchTripsTheNet` an instance.

## Model

| member | source | states |
|---|---|---|
| SeriesRecord.StageIsReadBack | evals/_mlr_series.py:357-385 | Writing the derived stage into a row and deriving again gives the same stage, for every row, so a restart classifies each row as the process that wrote it did |
| SeriesRecord.RecordedStage | evals/_mlr_series.py:604-613 | A returned attempt can never be recorded as not offered or in flight, whatever stage it claimed; it is before-launch exactly when it said it did not begin and unclassified exactly when it did not say |
| SeriesRecord.StageIff | evals/_mlr_series.py:357-385 | Each stage, exactly when: what the row says it is for a refusal, a row in flight and an unplaceable one, and for every other row by whether it began and how the launcher came back |
| SeriesRecord.DefectIsTheFirstTripped | evals/_mlr_series.py:151-190 | A completed attempt's letter is the first of conditions D to I, each stated on its own, that it trips, and it has none exactly when it trips none |
| Common.LowerAsciiIs | evals/_mlr_series.py:80-106 | Digests are compared letter case aside: each ASCII capital becomes its small letter and nothing else changes |
| SeriesRecord.DriftsIff | evals/_mlr_series.py:102-148 | An attempt drifts exactly when it recorded one of the ten identities the stack froze and the two disagree: a plain one by being different, a digest by not continuing the frozen prefix, letter case aside |
| SeriesRecord.FirstDefect | evals/_mlr_series.py:495-505 | The first recorded valid row that carries a validity defect, or none |
| SeriesRecord.DoneKeys | evals/_mlr_series.py:505 | A slot is closed exactly when some row of it is valid |
| SeriesRecord.Spend | evals/_mlr_series.py:287-319 | The account: the sum of recorded costs, the unpriced rows in order, and no unpriced row exactly when the account is complete |
| SeriesRecord.UnpricedIff | evals/_mlr_series.py:305-317 | A row leaves the account open exactly when it has no cost and nothing says that it stopped short of the launcher |
| SeriesRecord.OfferedIsCount | evals/_mlr_series.py:421-430 | The attempts a slot was given are the rows of it that are not refusals |
| SeriesChoices.BootIff | evals/_mlr_series.py:495-505 | A restart stops exactly when a valid row trips one of D to I, on the first such row's first letter, and otherwise offers from the first slot with exactly the slots of valid rows closed |
| SeriesChoices.ChooseIff | evals/_mlr_series.py:511-534 | The next slot is passed over exactly when closed, stops the run on C exactly when an attempt on it began or was lost in flight and did not come back valid, and is offered otherwise |
| SeriesChoices.OfferIff | evals/_mlr_series.py:537-598 | An offer enters its slot exactly when attempts are left, every row that may have cost something says what and one more reserve fits, nothing is left on the host and its executor continues the frozen digest; each other case is the stop B, J, H or G that it should be, with what is then on disk |
| SeriesChoices.ReturnIff | evals/_mlr_series.py:617-652 | A valid report closes its slot exactly when it trips none of D to I and otherwise stops on the first; any other stops on C exactly when it does not say that it never began, on G when it says so and found a leak, and otherwise leaves the slot open |
| SeriesSafety.StepKeeps | evals/_mlr_series.py:458-660 | Every step of any run, a kill included, keeps the invariant tying record, memory, made calls and the reason of a stop together |
| SeriesSafety.HistoryKeeps | evals/_mlr_series.py:458-660 | The invariant holds after every history of steps from a state that has it |
| SeriesSafety.AtMostOneTrajectory | evals/_mlr_series.py:443-455 | Over every history, an attempt is followed by another of the same slot only if it came back invalid and did not report entering the launcher; and no slot is called more often than the retry limit |
| SeriesSafety.InFlightIsNeverRetried | evals/_mlr_series.py:581-599 | An attempt lost in flight to a kill closes its slot: no later history calls it again and its row stays as it was |
| SeriesSafety.CheckpointsOnlyExtend | evals/_mlr_series.py:594-614 | Over every history each checkpoint equals the last, appends a row, or replaces the one last in-flight row by that attempt's outcome |
| SeriesSafety.ReachableRecords | evals/_mlr_series.py:510-536 | In every reachable record a row of a slot means every earlier slot of the frozen order has a valid defect-free row, and offered rows never exceed the retry limit |
| SeriesSafety.UnstoppedMeansFilled | evals/_mlr_series.py:654-660 | A run ends unstopped exactly when every slot has a valid defect-free row |
| SeriesMoney.CeilingHolds | evals/_mlr_series.py:538-557 | If no attempt costs more than the reserve, the money really paid never exceeds the ceiling over any number of kills and restarts, attempts whose outcome was lost included |
| SeriesMoney.UnpricedBlocksLaunches | evals/_mlr_series.py:540-557 | Under a ceiling a slot is entered only with a complete account and room for the reserve, so any earlier call reported its cost or that it never began |
| SeriesRestart.StopIsPermanentIff | evals/_mlr_series.py:482-505 | A stop of a reachable series survives every later history, with the same condition and no further call, exactly when the record carries it |
| SeriesRestart.VerdictAfterStop | evals/_mlr_series.py:482-557 | What a restart reads off the record is a stop with the same condition exactly for the recorded stops: B, J, D to I on a completed attempt, finishing, and C unless the attempt did not say whether it began |
| SeriesRestart.ClassifiedAttemptsStayStopped | evals/_mlr_boundary.py:295-306 | Attempts that always report `trajectory_began`, as the boundary's own do, make every C permanent |
| SeriesRestart.CourseHolds | evals/_mlr_series.py:490-557 | While the record's verdict is a stop, no action of any history changes that condition or makes a call |
| SeriesRestart.TwoStopsAreLost | evals/_mlr_series.py:631-652 | Concrete histories in which a live C and a live G are not kept by a restart |
| SeriesRun.World.Load | evals/_repeat.py:63-79 | A record of another configuration is refused; otherwise exactly its measurements, or none, are returned |
| SeriesRun.World.Write | evals/_repeat.py:82-95 | The whole record is replaced at once, and the moment is logged beside the machine state it stands for |
| SeriesRun.World.RunAttempt | evals/_mlr_series.py:594-603 | The attempt function is entered only when the record on disk ends with this slot's in-flight row, and the call is logged with what it did |
| SeriesRun.Checkpoint | evals/_mlr_series.py:327-338 | What is written is what the machine has on disk at most one step on from the last moment |
| SeriesRun.Ask | evals/_mlr_series.py:594-603 | An attempt is the machine's next moment after the one in which its slot went on disk as in flight |
| SeriesRun.RebuildDone | evals/_mlr_series.py:495-505 | The restart scan stops at the first defective valid row with its letter, having closed exactly the slots valid before it |
| SeriesRun.FindUnfinished | evals/_mlr_series.py:443-455 | Finds the first row that forbids offering the slot, exactly when there is one |
| SeriesRun.CountOffered | evals/_mlr_series.py:421-430 | Counts the attempts a slot was really given |
| SeriesRun.AttemptSlot | evals/_mlr_series.py:601-652 | An attempt is made only with the slot on disk as in flight; its row is replaced by the outcome, and every moment on the way is the machine's next one |
| SeriesRun.OfferOnce | evals/_mlr_series.py:537-652 | One offer of an open slot ends in the state the machine reaches from it, stopped, closed or open again, and every moment on the way is the machine's next one; it makes an attempt only on a host with the frozen executor and nothing left on it |
| SeriesRun.FillSlot | evals/_mlr_series.py:536-655 | An open slot is offered until it is closed, the run stops, or its attempts are used up, moment by moment as the machine does |
| SeriesRun.RunBoundedSeries | evals/_mlr_series.py:458-660 | A run, whatever the hosts and attempts answer, is a path of the machine from the record it found to the record it leaves: each checkpoint and each attempt is the machine's next moment after the one before it, so a kill after any of them leaves a state of that path and, from a record that histories lead to, each leaves the record, appends a row, or replaces its last, in-flight row by the outcome; each attempt it adds was made on a host it looked at, one look an attempt, that had the frozen executor and nothing left on it; it refuses only a foreign configuration, and then changes nothing |
| SeriesRun.MomentsFollow | evals/_mlr_series.py:594-614 | Consecutive moments of a run: the record only extends by a row or by the outcome of its last, in-flight row, calls only grow by one, and no moment both writes and calls |
| SeriesRun.RunsAreOneHistory | evals/_mlr_series.py:458-660 | Any number of runs, each resumed from any moment at which the one before it was cut short, is one history of the machine |
| SeriesRun.CutShortAnywhere | evals/_mlr_series.py:443-455 | Wherever the last of any number of runs is cut short, the record is in order, no slot was given a second trajectory, and the machine's invariant holds, so a run resumed there only extends |
| SeriesRun.StoppedRecordRunsNothing | evals/_mlr_series.py:490-533 | A run resumed from a record whose verdict is a stop makes no call and stops on the same condition |
| Schedule.Slots | evals/pb_mlr.py:200-212 | The loop produces the frozen order |
| Schedule.FrozenOrderAt | evals/pb_mlr.py:200-212 | At every position of the frozen order: sample after sample, and in each of them the arms in turn, from one further on each time |
| Schedule.FrozenOrderOnce | evals/pb_mlr.py:200-212 | The frozen order lists each arm and sample exactly once and nothing else |
| Schedule.FrozenOrderServesTheSeries | evals/_mlr_series.py:505-509 | Any series over that order meets the one requirement its theorems make of the slots |
| Schedule.EachPositionOnce | evals/pb_mlr.py:200-212 | Over any run of as many consecutive samples as there are arms, each arm stands at each position in exactly one of them |
| Experiment.Slots | evals/_experiment.py:123-142 | The triple loop produces the specified order |
| Experiment.CellAt | evals/_experiment.py:133-142 | At every position of the cells: sample after sample, instance after instance, and the arms in turn from one further on than in the sample or for the instance before |
| Experiment.EverySlotOnce | evals/_experiment.py:123-142 | Every instance, arm and sample is listed exactly once and nothing else is |
| Experiment.ArmsTakeTurns | evals/_experiment.py:137-139 | Per instance, over as many consecutive samples as there are arms, each arm takes each position in exactly one |
| Experiment.SlotIdInjective | evals/_experiment.py:44-52 | Two cell ids are equal exactly when all three coordinates are, for every accepted arm and pressure and any instance name |
| Experiment.ReflectionIdInjective | evals/_experiment.py:60-62 | Two reflection ids are equal exactly when instance, arm and sample are |
| Experiment.ReflectionSlotsDiffer | evals/_experiment.py:123-142 | In every experiment that loading accepts, no two slots share a reflection id |
| Experiment.SplitSlotIff | evals/_experiment.py:55-57 | Splitting a cell id gives its coordinates back exactly when the instance has no bar, and fails otherwise |
| Experiment.BarredInstanceLoads | evals/_experiment.py:86-117 | A concrete experiment that loads although its instance contains the bar, and whose cell id does not split |
| Ordering.LeqIff | scripts/_dag.py:71-74 | The order sorting goes by is code-point order: one string begins the other, or they agree up to a place where it has the smaller character |
| Ordering.SortCanonical | scripts/_dag.py:62-86 | Sorting depends on which strings there are and not on how they were listed |
| Dag.AssertAcyclic | scripts/_dag.py:26-59 | The traversal ends, refuses exactly when some key reaches itself through keys, and reports a real walk whose last node already occurs in it |
| Dag.FinishedIsAcyclic | scripts/_dag.py:26-59 | A finishing order with every dependency before its dependent rules a cycle out |
| Topological.TopologicalOrder | scripts/_dag.py:62-86 | The explicit-stack loop computes the recursive postorder over sorted keys and dependencies |
| Topological.EveryKeyOnce | scripts/_dag.py:62-86 | On any graph, cyclic or not, the order holds every key exactly once and nothing else |
| Topological.DependenciesComeFirst | scripts/_dag.py:62-86 | On a graph without a cycle every key comes after all its key dependencies |
| Topological.SmallerKeyFirst | scripts/_dag.py:62-86 | On any graph, cyclic or not, a smaller key is listed before a larger one unless it leads to it, or something depends on the larger one and not on it |
| Topological.IndependentKeysAscend | scripts/_dag.py:71-74 | Without edges the order is the keys ascending |
| Topological.LeafDependenciesAscend | scripts/_dag.py:62-86 | Dependencies of one node that have none of their own, and that nothing else has, come out ascending |
| Topological.OrderIsCanonical | scripts/_dag.py:62-86 | The order does not depend on how keys or any dependency list were ordered |
| Ownership.ProtectedPids | scripts/_attempt_teardown.py:116-130 | The walk up the parent chain ends on any table and collects exactly 0, 1 and the controller's ancestors |
| Ownership.DescendantsOf | scripts/_attempt_teardown.py:137-143 | The worklist ends on any table and collects exactly what is transitively below a corroborated root |
| Ownership.OwnedProcesses | scripts/_attempt_teardown.py:73-166 | Lists, in table order and as often as the table does, exactly the unprotected rows that are roots, in a group a root leads, below a root, or name the view, each for the first reason that holds, with the led groups and uncorroborated pids |
| Ownership.NamesViewIff | scripts/_attempt_teardown.py:132-133 | A process names the view exactly when the view's path, of at least twelve characters, stands anywhere in its command |
| Ownership.ViewInTheMiddle | scripts/_attempt_teardown.py:132-135 | A recorded worker whose command has the view anywhere in it is a root, and owned |
| Ownership.ByPidIsLast | scripts/_attempt_teardown.py:114-114 | A pid listed twice stands for its last row |
| Ownership.UncorroboratedSelectNothing | scripts/_attempt_teardown.py:80-87 | Dropping the recorded pids the table does not corroborate changes nothing owned and no group |
| Ownership.ControllerInLedGroup | scripts/_attempt_teardown.py:203-205 | A table in which a signalled group holds the controller |
| Teardown.Teardown.Look | scripts/_attempt_teardown.py:251-252 | The first look watches exactly what is owned, a pid listed twice under its last row |
| Teardown.Teardown.Refresh | scripts/_attempt_teardown.py:261-267 | The watch set becomes everything owned in any snapshot so far, entries already watched kept, and an unreadable table changes nothing |
| Teardown.Teardown.Settle | scripts/_attempt_teardown.py:269-277 | Ends with a sweep that lists exactly the ever-owned pids still alive, early only when that is nobody; the watch set only grew |
| Teardown.SignalAll | scripts/_attempt_teardown.py:200-221 | Each group and each pid is signalled once and nothing else is |
| Teardown.Teardown.Stop | scripts/_attempt_teardown.py:224-294 | On every path the stopped flag is the negation of survivors remaining; an unreadable first table is never stopped; otherwise the survivors are exactly the pids owned in any snapshot that the last sweep found alive; the first signal goes to exactly what the first snapshot owns and leads, and the second, on escalation and only then, to exactly the known groups and the pids that outlived the first grace, whatever number of looks either grace has room for |
| Teardown.SignalledGroupsHoldOwned | scripts/_attempt_teardown.py:200-221 | In the table of any look, the groups led in any look so far hold ever-owned processes only, exactly when no row of a group still led there is protected, unless owned earlier, and every row of a group no longer led there was owned in some look |
| Teardown.StaleGroupHoldsAStranger | scripts/_attempt_teardown.py:261-287 | A concrete call, with nothing protected in any group, whose second signal reaches a process that no look ever owned |
| Teardown.ControllerNeverWatched | scripts/_attempt_teardown.py:224-294 | No snapshot of a call ever puts the controller, 0 or 1 on the watch set |
| ArtifactIdentity.DecodeIsInverse | scripts/_artifact_identity.py:50-63 | Strict decoding gives a text exactly when that text encodes to the bytes |
| ArtifactIdentity.CanonicalIsByteFold | scripts/_artifact_identity.py:50-63 | For every byte string, decode, fold, encode is the fold of the bytes themselves, and it fails exactly on bytes that encode no text |
| ArtifactIdentity.CheckoutKeepsIdentity | scripts/_artifact_identity.py:50-63 | For every text, CR LF pairs included, writing any chosen LFs as CR LF keeps the canonical bytes exactly when no chosen LF has a CR before it |
| ArtifactIdentity.OneIdentityPerText | scripts/_artifact_identity.py:50-63 | A text without a CR LF pair has its own bytes as canonical bytes under every such rewriting |
| PosixPath.AcceptedIff | scripts/_freeze.py:122-135 | The path test accepts exactly the canonical relative spellings and the single spelling `.` |
| PosixPath.InScopeIff | scripts/_change_graph.py:88-97 | Between canonical spellings scope is being the directory or continuing it after a slash, never a mere string prefix |
| PosixPath.ControlFileIff | scripts/_change_graph.py:100-101 | A canonical path is a control file exactly when it is one of the two names or ends with one after a slash |
| Json.ReadPrinted | scripts/_freeze.py:104-105 | Reading a printed value, at any depth and with any text after it, gives that value and leaves that text |
| Json.LoadsPrinted | scripts/_freeze.py:104-105 | Loading the printed text of any value gives the value back |
| Json.EscapedWhen | scripts/_freeze.py:104-105 | Seven characters have the short escape, the other control characters the long one in lowercase, and every other character, ASCII or not, stands for itself |
| Json.Layout | scripts/_freeze.py:104-105 | Objects are printed a member a line, two blanks a level, one blank after a colon and none at a line's end |
| Freeze.DigestOkIff | scripts/_freeze.py:61-119 | The anchored pattern, matched character by character, accepts exactly 64 lowercase hexadecimal characters, with or without one newline after them |
| Freeze.AsDictIs | scripts/_freeze.py:147-147 | Of a repeated name a parsed object keeps the value that came last |
| Freeze.ShapeIff | scripts/_freeze.py:156-167 | A document has the freeze's shape exactly when it is an object with no third name, the one format and an object of artifacts |
| Freeze.EntryIff | scripts/_freeze.py:182-206 | An entry passes exactly when its path is accepted and it has the three names and no other, content and dependency digests spelled as digests, a known purpose and no dependency on itself |
| Freeze.BindingSays | scripts/_freeze.py:191-206 | What an accepted entry binds is, name by name and dependency by dependency, what its text said last |
| Freeze.DependencyEdges | scripts/_freeze.py:219-220 | The graph that must not close has an edge exactly from a member to each member it was accepted against |
| Freeze.LoadFreezeObject | scripts/_freeze.py:155-224 | Malformed, disagreeing and cyclic freezes are each refused exactly when they are that, in that order, naming two members that do disagree or a walk that does close; the rest load as their own bindings |
| Freeze.CanonicalTextIff | scripts/_freeze.py:88-110 | Two freezes print one text exactly when they bind the same things, whatever order their entries were inserted in |
| Freeze.LoadingUndoesPrinting | scripts/_freeze.py:88-224 | The printed text parses to the value printed; the validator accepts it exactly when the freeze is valid and gives the same freeze back |
| Freeze.Compare | scripts/_freeze.py:278-307 | Every difference is reported once, in path order and at one path in the order content, dependencies, purpose; nothing else is, and nothing is reported exactly when both bind the same artifacts alike |
| Freeze.ComparingIsIdentity | scripts/_freeze.py:278-307 | Nothing differs exactly when the canonical texts are equal |
| ChangeGraph.LoadGraph | scripts/_change_graph.py:104-166 | Refuses exactly the malformed and the cyclic declarations, the latter with a walk that closes; what loads has accepted, in-scope, case-distinct members with distinct foreign targets and no cycle |
| ChangeGraph.GraphShapeIff | scripts/_change_graph.py:113-127 | A document has a declaration's shape exactly when it is an object with no third name, the one format and an object of artifacts |
| ChangeGraph.MemberIff | scripts/_change_graph.py:133-158 | A declared member passes exactly when its path is accepted, in scope and no control file, and its list is of distinct accepted paths other than its own |
| ChangeGraph.DeclaredSays | scripts/_change_graph.py:149-159 | A loaded member's edges are exactly the targets it listed, each once, ascending |
| ChangeGraph.Evaluate | scripts/_change_graph.py:183-245 | Reports exactly the findings that hold, pass by pass, in path order, one member's edges in their fixed order and its unresolved targets in the order it lists them |
| ChangeGraph.Derive | scripts/_freeze.py:230-252 | Print-then-load refuses exactly a missing record, naming the least member without one, or a malformed, a disagreeing or a cyclic derived freeze, naming the pair or the walk, and otherwise returns that freeze |
| ChangeGraph.SatisfiedGraphDerives | scripts/_freeze.py:238-241 | When nothing is found on a loaded graph, every member has a record, the freeze has exactly the declared members and edges, is valid and acyclic, so only disagreeing digests can refuse it |
| ChangeGraph.IdentityIgnoresMechanics | scripts/_freeze.py:71-82 | Two ledgers print one text for a graph exactly when its members agree on content, dependency identities and purpose; role, gate and attempt never show |
| LaunchLedger.Ledger.Admit | scripts/_launch_budget.py:427-473 | Each refusal is named exactly when its own rule, stated by itself, holds of the slots and the account |
| LaunchLedger.AdmittedIff | scripts/_launch_budget.py:439-469 | A launch is admitted exactly when nothing is unresolved, the account is complete, the slots of every outcome leave room under the ceiling, limit or allowance has room, and a producer has its first launch or a repair left |
| LaunchLedger.Ledger.Reserve | scripts/_launch_budget.py:475-481 | Appends one unresolved slot with the next number |
| LaunchLedger.Ledger.Classify | scripts/_launch_budget.py:483-514 | Changes only the classification of the first slot of that number, to the outcome its reservation means, which `LaunchLedger.SlotsSayWhatRan` states over every run |
| LaunchLedger.ProtocolHolds | scripts/_launch_budget.py:427-514 | Over every run slots are numbered 1 to n, only the last can be unresolved, all of them together stay within the ceiling, and no task has more producer launches than its first and its repairs |
| LaunchLedger.SlotsSayWhatRan | scripts/_launch_budget.py:403-419 | Over every run the slots are the launches in order; those that reached the executor are as many as the classifications that found a reservation, the failures before it as many as those that found none, the rest unresolved; and a task's producer attempts are its producer launches found to have a reservation |
| LaunchLedger.AdmittedByHistory | scripts/_launch_budget.py:427-473 | A further launch is admitted after a run exactly when every launch of it is classified and the account complete, there were fewer launches than the ceiling, limit or allowance has room, and the task's producer launches that had a reservation are no more than the repairs |
| LaunchLedger.LimitHolds | scripts/_launch_budget.py:455-457 | A billed run that launched anything stays within its limit when no launch costs more than the reserve |
| LaunchLedger.Supervise | scripts/_launch_budget.py:427-514 | Admit, reserve and classify on the ledger object are the protocol's steps |
| Attribution.ResolvesIff | scripts/_launch_budget.py:89-113 | An attempt resolves to a session exactly when it names that session and the database holds it, or names none and it is the only session carrying the attempt's title |
| Attribution.ChargedIff | scripts/_launch_budget.py:236-246 | A session is charged with an attempt exactly when the attempt is readable and names it, or names none and it is the only one carrying its title |
| Attribution.Settle | scripts/_launch_budget.py:233-270 | Claims and unattributed attempts are exactly those that resolve so, and attribution is established exactly when readable attempts and sessions correspond one to one |
| Attribution.EstablishedIff | scripts/_launch_budget.py:258-266 | Total, claimed at most once and claimed at least once together are the bijection |
| Lineage.Components | evals/_lineage.py:250-295 | Each line lands in one form; bytes and kept lines per form are exactly those of its lines and the five parts sum to the total |
| Lineage.FormsCover | evals/_lineage.py:253-256 | Over any text the bytes, and the lines, of the five forms add up to all of them |
| Lineage.DominantForm | evals/_lineage.py:347-357 | The loop returns the first substantive form that is at least half of a non-empty text, or none |
| Lineage.DominanceIsTheLabel | evals/_lineage.py:298-357 | The first form to reach half and the largest form are one form whenever either names one, ties at exactly half included |
| Lineage.LabelIff | evals/_lineage.py:298-316 | A label names a form only if it is at least half of a text that is not empty, the first of two; mixed is exactly no form at half and twenty-four bytes of some form |
| Lineage.IdentityIsTheSetOfLines | evals/_lineage.py:319-331 | Two components have one identity exactly when they have the same set of lines, in whatever order |
| Lineage.IdentityIff | evals/_lineage.py:326-331 | A component has an identity exactly when it has a line and its lines with their newlines encode to twenty-four bytes of UTF-8 |
| Context.SourceItemsCarrySource | evals/_mlr_context.py:1004-1007 | An item called implementation source on unsettled evidence carries source content |
| Context.WinnerIff | evals/_mlr_context.py:435-442 | A partial replay takes the origin most of its known lines were seen with, the last by name of those that tie, and is none exactly when no line is known |
| Context.SafetyNet | evals/_mlr_context.py:976-1014 | No resolved item leaves a material component attributed to nothing or is source without source; a tool or user part never trips the net |
| Context.NetTripsIff | evals/_mlr_context.py:976-1014 | A resolved part trips the net exactly when it is neither a tool's nor a user's, names internals and no file, is unsettled, has no material form and no name of its own in the module, and its name is not unresolved and comes from the request or from no replayed form |
| Context.AttributionFailsIff | evals/_mlr_context.py:744-764 | Attribution fails exactly for an unsettled part nothing was requested of whose dominant form is one or two opcode lines |
| Context.OneOpcodeLineFails | evals/_mlr_context.py:761-762 | A concrete part for which it fails |
| Context.NamingPatchTripsTheNet | evals/_mlr_context.py:1008-1013 | A concrete part written by the model that trips the net's last rule |
| ContextEvidence.CausesInOrder | evals/_mlr_context.py:889-904 | A remembered artifact speaks first, then the first remembered path referred to, then authorship, then where the artifact lies |
| ContextEvidence.AnswerIff | evals/_mlr_context.py:830-865 | Each thing an activity's output can answer, exactly when: source for an opened file that returned source, the public contract or the runtime for documentation by whether an internal name was returned, behaviour for a run, and otherwise by the bytes rendered and the files named |
| ContextEvidence.UnsaidRequest | evals/_mlr_context.py:905-916 | A part nothing else is said of requests what its activity answers, or what its route was given, settled only if a source file was opened |
| ContextEvidence.CausesCover | evals/_mlr_context.py:714-723 | History, authorship, a settling place and an opened source file give the item and every part of it one origin, no part as a replay |
| ContextEvidence.FormSpeaks | evals/_mlr_context.py:650-676 | The origin of a component that replays nothing, form by form, from the request and the file names beside it |
| ContextEvidence.ReplaySpeaks | evals/_mlr_context.py:416-443 | The origin of a component that replays something: what its content was remembered with, or else what most of its remembered lines were |
| ContextEvidence.NothingDisclosedNothingCharged | evals/_mlr_context.py:830-865 | A part that opened no source, names no internals or source file, renders nothing and replays nothing never has an origin in the module, nor has any component of it, unless an artifact or path it concerns has one |
| ContextEvidence.DisclosureIsCharged | evals/_mlr_context.py:853-854 | Documentation or introspection that returns internal names and replays nothing is always an item of the module |
| ContextEvidence.ModuleItemsHaveParts | evals/_mlr_context.py:766-773 | An item with an origin in the module always has a part of that origin, the whole item where no component is one |
| ContextEvidence.ItemsCarryTheirForms | evals/_mlr_context.py:719-741 | Each form with a line in the text, three for opcodes, is a part of the item with all its bytes, the identity of its lines and, for source, the lines |
| ContextSession.Session.NoteContent | evals/_mlr_context.py:400-414 | Noting parts in place is noting them one by one, first origin kept |
| ContextSession.Session.Resolve | evals/_mlr_context.py:868-973 | One part through the table: the item is the attribution under the memory before it, of which `ContextEvidence` says what it can be, and the memory after it is that memory with the part's links noted |
| ContextSession.NotingNeverRewrites | evals/_mlr_context.py:400-414 | What was remembered stays remembered with the same origin |
| ContextSession.ComponentIsNoted | evals/_mlr_context.py:400-414 | A material component of a resolved item is remembered under its own origin unless that content already has one |
| ContextSession.MemoryOnlyAnswers | evals/_mlr_context.py:409-411 | Over a whole transcript no content or line is ever remembered as unresolved or other |
| ContextSession.LastProducerIsRemembered | evals/_mlr_context.py:394-395 | A path is remembered as what produced it last |
| ContextSession.FirstOriginSticks | evals/_mlr_context.py:416-443 | Once content is noted, every later unsettled item carrying it carries it under the first origin, as a replay, for the rest of the session |
| ContextSession.FirstLineOriginSticks | evals/_mlr_context.py:435-442 | When every source line of an unsettled item was earlier noted under one origin and its source as a whole is not remembered, its source component carries that origin as a replay |
| ContextLedger.Account | evals/_mlr_context.py:1033-1059 | The loop gives every class its unique bytes, delivered bytes and items |
| ContextLedger.DeliveryConserved | evals/_mlr_context.py:1036-1057 | Delivered bytes over all classes are, call by call, the bytes recorded before that call, added up |
| ContextLedger.UniqueIsSum | evals/_mlr_context.py:1054-1057 | Unique bytes of a class are the sizes of its distinct texts |
| ContextLedger.UniqueIgnoresReplay | evals/_mlr_context.py:1054-1057 | Unique bytes of a class do not depend on the order of its texts or on how often any is replayed |

## Left out

- Sandbox, executor and subprocess plumbing: `evals/_mlr_boundary.py` is the adversarial attempt function; its copy of the teardown is not modelled a second time. `launchable`, `config_fixture`, `clear_stale_views`, the unbounded `run_series` and the wording of stop details and spend claims.
- The hypothesis that attempt records do not overwrite `item`, `repeat`, `slot` or `attempt`, and that stack, ceiling and retry limit stay fixed over a history, is built into `SeriesMachine.Config` and the row type.
- SeriesRun.RunBoundedSeries: an unreadable record file and failing writes are not modelled; the frozen identity is compared as a string and never computed.
- SeriesMoney.CeilingHolds: costs are integers, so the rounding of the derived figure to six places is not modelled; it assumes that an attempt which says it never entered the launcher and reports no cost paid nothing, and that the boundary reports what it paid.
- Teardown.Teardown.Settle: a deadline is a number of looks, any number for each of the two graces; clocks and sleeps are not modelled, and one sweep's liveness answers are indexed by sweep.
- Ownership: reading and parsing `ps` output and the launcher's `attempt.json` files; tables and recorded pids are inputs.
- Ownership.OwnedProcesses: led groups and uncorroborated pids are sets, where the source sorts them into lists.
- Teardown.Teardown.Stop: survivors are pids; the source reports each with its watched row's group and reason.
- Teardown.Teardown.Emit: what a signal does, and whether it was delivered, is not modelled, because survivors are judged from sweeps alone.
- Digests: SHA-256 is read as injective, so identities are compared as the texts they digest; in the byte ledger this is the hypothesis that equal digests have equal sizes.
- Json.Loads: arrays, numbers and booleans are not read, since no freeze holds one; lone surrogates and the reader's other liberties (NaN, infinities) are not modelled. `ChangeGraph.LoadGraph` starts from the parsed value.
- Freeze.LoadFreezeObject: Unicode lower-casing is a parameter; a review purpose that is not hashable, which raises a different exception, is refused as malformed; `repository_findings` and the reading of files are not modelled.
- ChangeGraph.Evaluate: artifact states are a parameter, findings carry no prose, and `canonical_graph_text` is not modelled.
- LaunchLedger: the account comes from outside (`_settle`'s pricing half, `_unbilled`, billing bases and profiles), flushing to disk and resuming a ledger file are not modelled, and an event carries whether a reservation was found.
- Attribution: session rows arrive already read; reconciliation of model calls and zero-usage findings are not modelled.
- Lineage.Components: each line arrives with its form, its kept text and its size; undecoration, opcode and reference patterns are an arbitrary classifier. `source_in`, `metadata_in` and `source_identity` are not modelled beyond their counts.
- Context.Attribute: routes, opened and referenced paths, internal-name hits and metadata counts are inputs; shell parsing, `normalise` and the source, reconstruction and token channels of an item are not modelled.
- ContextLedger.Account: the by-class account only; the by-route, source, metadata and reconstruction channels repeat its loop over other keys.
- Experiment: the manifest's text fields, and `configuration`; `cells` and `measurement_rows` only apply `SlotId`.
