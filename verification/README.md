# XPARO robot runtime: a verified model

A Dafny model of the parts of the XPARO robot runtime in which a small mistake would be hard to see: the
behaviour-tree engine, the tethered link, the problem tracker, the ad player, the queue of important sends and the text
normal form behind file sync. Every method and lemma is proved for all inputs; nothing is bounded, and whatever the
program takes from outside (leaf results, ports, clocks, sockets, the server, other threads) is a parameter.

Each component has a specification on values, theorems about it, and a class whose methods update their fields as the
program does and are proved to do what the specification says.

| files | component |
|---|---|
| `BehaviourTrees`, `BehaviourObjects` | the state of a tree of nodes and one tick or stop of it, on values and on node objects |
| `TreeInvariant` | what ticking and halting keep in the whole tree |
| `NodeMeaning`, `Parallels`, `LoopFuel`, `LoopWrites` | what single kinds of node do in a tick and in a loop of ticks |
| `NodeCalls` | the calls that a leaf and the nodes of a stopped tree get, and their order |
| `NodeRuns` | any node of any tree goes through a run of its own, in the environments and worlds of the tree's run |
| `NodeLives`, `NodesInTrees` | what a kind promises over a node's own run, and over the runs of the tree it is in |
| `Blackboards` | the dictionary that counts writes |
| `TreeDocuments`, `TreeChecking`, `TreeAgreement`, `TreeWalkers` | validating and building a tree with its SubTrees expanded |
| `TagMeanings`, `TreeReports` | what every tag of a document comes to when it runs; what a validation reports and a walk knows |
| `RunTraces`, `RunLoop`, `Executors`, `TaskRuns` | the run loop, its live trace and its timeline |
| `Framing`, `LinkRoles` | the framed stream and the roles of redundant channels |
| `ProblemTable`, `ProblemReplica`, `ProblemTimes`, `ProblemTrackers` | the problem table, alone and next to a dashboard that sees only deltas |
| `AdPlays`, `AdTurns`, `AdManagers`, `PlayLogs` | the life of an ad play, the schedule's promises, the log of plays |
| `SendQueue`, `SyncText` | important sends under interleaving; the text normal form |

Where things meet that run at the same time (the ad player, the send queue) every locked region of the program is one
step and a run is any list of steps. Some state carries what the program does not have, to speak about history: the
numbers of plays and of appended payloads, and the step counter of the ad player.

## What turned out not to hold

- A SubTree element with children validates and does not build (`ChildfulSubtreeSlipsThrough`), and neither does a
  Parallel whose count is no number (`RefusedCountSlipsThrough`). `BuildFailsExactly`: there is nothing else.
- A dashboard that adds up what is reported can be ahead of the tracker: a log line that is evicted at once, because the
  table is full of active problems, stays pending, and if it is logged again with room before the next flush, that flush
  reports two for a count of one (`DashboardRunsAhead`). `RunInSync`: exactly then.
- A diagnostic message over 2000 characters is counted again at every republish (`RepublishingIsFreeIfShort`).
- A once/timed booking can pass for shown because another booking of the same ad was (`AnotherSlotCountsToo`,
  `FirstLookDecides`), although the manager's description speaks of the slot; and one without a slot start is shown again
  after a restart although its showing was logged (`ShownAgainExactly`).
- A false header in garbage holds back every message behind it, exactly until as many bytes have come as it claims
  (`FalseHeaderStalls`); then they come out (`FalseHeaderIsOvercome`).
- CR before CRLF is one line end more than CRLF (`CrBeforeCrLf`).
- A run that its tick limit stops can be left with a RUNNING node (`TickLimitLeavesItRunning`). `EndedRunsAreQuiet`: no
  other end can, nor a limit that allowed no tick.

The order of important sends is another matter. The flush's description promises the original order, and it is kept
exactly as long as no flush puts something back in front of payloads that were queued before it (`OrderIsKeptExactly`),
so always with one flush at a time (`OneFlusherKeepsOrder`). `TwoFlushersReorder` is hypothetical: the flush is called only
from `send_initial_data` (`xparo/engine.py:2040-2050`), which the one connection thread calls after a connect
(`xparo/transports/django_ws.py:155`, `xparo/transports/django_ws.py:282`) and the tether once in a process
(`xparo/transports/tethered_tcp.py:380-387`). Two flushes would have to overlap, say because the transport is replaced after
a rejected credential (`xparo/engine.py:299-310`) while the first one's flush still sends.

## Model

| member | source | states |
|---|---|---|
| TreeInvariant.TickIsTidy | xparo/bt_engine/builtins.py:224-653 | one tick of any node of any kind, with arbitrary leaves, ports, clock and world, keeps the whole-tree invariant: a node that is not RUNNING has no RUNNING descendant |
| TreeInvariant.EveryRunIsTidy | xparo/bt_engine/executor.py:249-290 | over every sequence of ticks and halts of a tree as built, the invariant holds, and a root that is not RUNNING means no node is |
| TreeInvariant.AncestorsRun | xparo/bt_engine/builtins.py:224-653 | in a tidy tree every ancestor of a RUNNING node, along any path, is RUNNING |
| TreeInvariant.StopHaltsEverything | xparo/bt_engine/executor.py:276-288 | `stop(INVALID)` of a tidy tree leaves no node RUNNING, although it skips subtrees whose root is INVALID |
| TreeInvariant.StopIsCompleteExactly | xparo/bt_engine/executor.py:276-288 | for arbitrary trees, reachable or not: a stop leaves no node RUNNING exactly if no RUNNING node is below a child that is INVALID already |
| TreeInvariant.StopMissesOrphans | xparo/bt_engine/executor.py:282-284 | the least tree of the other kind, which EveryRunIsTidy shows no run to reach: its RUNNING node survives the stop |
| TreeInvariant.StopIsTidy | xparo/bt_engine/builtins.py:255-262 | stopping a node with any final status leaves a tidy tree, for the two ways children are halted |
| TreeInvariant.DecoratorIsTidy | xparo/bt_engine/builtins.py:224-246 | the invariant for every decorator built on `_Decorator`, with any bound on the synchronous rounds |
| TreeInvariant.RoundsIsTidy | xparo/bt_engine/builtins.py:265-319 | the synchronous loop restarts its child before every further round, so no round leaves anything running behind |
| TreeInvariant.ConditionalIsTidy | xparo/bt_engine/tree_builder.py:101-147 | the invariant for the condition wrapper, whose short circuit halts the child it does not tick |
| TreeInvariant.SequenceIsTidy | xparo/bt_engine/node_registry.py:44-62 | the invariant for sequences with and without memory, children behind the current one included |
| TreeInvariant.SelectorIsTidy | xparo/bt_engine/node_registry.py:44-62 | the invariant for selectors with and without memory |
| TreeInvariant.MemoryFromIsTidy | xparo/bt_engine/builtins.py:498-521 | the invariant for SequenceWithMemory |
| TreeInvariant.ParallelAllIsTidy | xparo/bt_engine/builtins.py:524-552 | the invariant for ParallelAll: it only ends when no child is RUNNING |
| TreeInvariant.CountingIsTidy | xparo/bt_engine/composites.py:21-69 | the invariant for CountingParallel: an early verdict halts the children still RUNNING |
| TreeInvariant.IfThenElseIsTidy | xparo/bt_engine/builtins.py:555-583 | the invariant for IfThenElse |
| TreeInvariant.WhileDoElseIsTidy | xparo/bt_engine/builtins.py:586-612 | the invariant for WhileDoElse: switching branch halts the other one |
| TreeInvariant.SwitchIsTidy | xparo/bt_engine/builtins.py:626-653 | the invariant for Switch: changing case halts the previous child |
| NodeMeaning.AtMostOneBranchRuns | xparo/bt_engine/builtins.py:498-653 | in every reachable state of every tree, two branches of IfThenElse, Switch, WhileDoElse or a sequence with memory are never RUNNING together |
| NodeRuns.EveryNodeRunsByItself | xparo/bt_engine/builtins.py:224-653 | in every run of every tree the node at any path goes through a run of its own, cut into one segment for every event of the tree: it is ticked and halted, each time in the environment of that event, one after the other in worlds that event passes through, and ends the segment as it is in the tree then; by a halt of the tree it is only halted |
| NodeRuns.TickLeads | xparo/bt_engine/builtins.py:224-653 | one tick of a node of any kind does nothing to any of its children but a sequence of ticks and halts, in the tick's environment, each in a world that nodes lead to from where the one before ended, and none past the world the tick ends in |
| NodesInTrees.EveryNodeKeepsItsPromise | xparo/bt_engine/builtins.py:224-653 | so in every run of every tree as built, at any path, every event of a gate, Timeout, RunOnce, IfThenElse, result-mapping decorator or SubTree is the one described below, with the environment of the tree's event it belongs to and between its worlds; the tree's states of the node are states of that run |
| NodeLives.GateOverRuns | xparo/bt_engine/builtins.py:322-428 | every tick of a Delay, Precondition, SkipUnlessUpdated or WaitValueUpdate in every run: FAILURE at once if its port cannot be read when an activation begins; transparent if open, which means that the port's time since that beginning is over, that the condition held then, that the version then was not the one seen at the activation before, or that some later tick saw another version; else its answer and an untouched child |
| NodeLives.ClosedGateKeepsItsChild | xparo/bt_engine/builtins.py:322-428 | as long as a gate has been closed, its child is as it was when the activation began |
| NodeLives.OpenGateStaysOpen | xparo/bt_engine/builtins.py:322-428 | an open gate stays open for the rest of the activation; a Delay does if the clock does not go back |
| NodeLives.TimeoutOverRuns | xparo/bt_engine/builtins.py:335-349 | every tick of a Timeout in every run: a child that ended keeps its result, however late; one that is RUNNING goes on before the deadline, counted from the beginning of the activation; at the deadline the node fails and nothing below it is RUNNING; an unreadable port fails it at once |
| NodeLives.RunningTimeoutIsInTime | xparo/bt_engine/builtins.py:335-349 | in no state of its run is a Timeout RUNNING whose last tick ended at or past its deadline |
| NodeLives.RunOnceOverRuns | xparo/bt_engine/builtins.py:352-371 | every tick of a RunOnce in every run: transparent until its child has ended, in whatever activation; from then on the child is untouched and the answer is its first result, or SUCCESS if `then_skip` says so at that tick |
| NodeLives.RunOnceFinishesOnce | xparo/bt_engine/builtins.py:363-371 | its child ends once at most: after a tick that leaves the node ended no tick touches the child, in this activation or any later one, halts in between or not |
| NodeLives.IfThenElseOverRuns | xparo/bt_engine/builtins.py:559-583 | every tick of an IfThenElse in every run: the condition is asked until it ends, anew in each activation; its result picks the branch, which from then on is resumed alone, the condition untouched |
| NodesInTrees.ResultsAreMapped | xparo/bt_engine/builtins.py:672-674 | in every reachable state of every tree, at any path: an Inverter that has a status has swapped SUCCESS and FAILURE of its child, a forcing decorator has left only one of them, a SubTree both; RUNNING exactly if the child is |
| NodesInTrees.RunningTimeoutAnywhere | xparo/bt_engine/builtins.py:335-349 | a Timeout that is RUNNING at any path of any tree: by the clocks of the tree's events in which its activation began and in which it was last ticked, its child's tick ended before the port's time since that beginning was over; it has been RUNNING since the former, and nothing has happened to it since the latter |
| NodesInTrees.RunningGateAnywhere | xparo/bt_engine/builtins.py:322-428 | a gate that is RUNNING at any path has let its child run, or is still waiting in terms of the tree's events: a Delay for its port's time since the activation began, a WaitValueUpdate for another version than it saw then, a Precondition that was false answers RUNNING |
| NodesInTrees.ShutGateAnywhere | xparo/bt_engine/builtins.py:322-428 | at any path, from a moment at which a gate is not RUNNING: as long as the clock of the tree's events has not gone on by what the Delay's port asks, the Precondition is false, or a SkipUnlessUpdated or WaitValueUpdate meets no other version, its child is not ticked: it is halted at most |
| NodesInTrees.RunOnceEndsOnceAnywhere | xparo/bt_engine/builtins.py:352-371 | once a RunOnce at any path has ended, then in every later state of the tree nothing of it is RUNNING, it has no status, its first result or SUCCESS, and its child was halted at most |
| NodeMeaning.SequenceVerdict | xparo/bt_engine/node_registry.py:44-62 | every tick of a sequence: it begins at the child it was RUNNING at if it has memory, else at the first, all others halted at a start; it succeeds when all from there on have; otherwise it stops at the first that did not, with its status, those behind untouched if it resumed with memory and halted otherwise; those in front are not ticked again |
| NodeMeaning.SelectorVerdict | xparo/bt_engine/node_registry.py:44-62 | every tick of a selector: it fails when every child from the one it was at (with memory, those in front halted) or from the first (without) has; otherwise it has the status of the first that did not, which it remembers; those behind are halted if the choice changed, and untouched otherwise |
| NodeMeaning.ForcedResultHalts | xparo/bt_engine/tree_builder.py:101-147 | a forced result is the node's status, the child is halted and not ticked, and nothing below is RUNNING; without one the wrapper is transparent |
| NodeMeaning.ConditionPriority | xparo/bt_engine/tree_builder.py:101-133 | the first condition that decides, in the order skip, failure, success, while, gives the node its result whatever the later ones say, and nothing of the node is RUNNING; if none decides, the child is ticked and its status is the node's |
| NodeMeaning.WhileDoElseIsReactive | xparo/bt_engine/builtins.py:586-612 | the condition decides every tick; the branch not taken is completely quiet afterwards and the result is that of the branch taken |
| NodeMeaning.SwitchRunsOneCase | xparo/bt_engine/builtins.py:635-653 | exactly the first matching case, else the default, gives the result, and every other child is completely quiet |
| NodeCalls.LeafIsCalledInOrder | xparo/bt_engine/process_runner.py:121-185 | through any run of ticks and halts a leaf is initialised only when it is not active, updated only when it is, and gives a result only then, of which it is told by `terminate`; it is active exactly while it is RUNNING |
| NodeCalls.LeafIsCalled | xparo/bt_engine/process_runner.py:121-185 | what one event calls, in order, and that the result of a tick is what `update` answered in the world after `initialise` |
| NodeCalls.StopEndsTheLiving | xparo/bt_engine/executor.py:279-287 | a stop calls `terminate` once for every node below that has a status and lies below no node without one, then for the node itself; a Parallel that ends does so for its RUNNING children; arbitrary trees |
| NodeCalls.RunningIsLiving | xparo/bt_engine/executor.py:279-287 | and in every tidy tree each RUNNING node, at any path, is one of those |
| Parallels.UnreachableIsExact | xparo/bt_engine/composites.py:49-61 | the "can no longer be reached" branch fires exactly when no outcome of the unfinished children could bring the successes to `success_count` |
| Parallels.CountingVerdict | xparo/bt_engine/composites.py:21-69 | CountingParallel's status is a fixed function of successes and failures, and SUCCESS without children; RUNNING means a child is still RUNNING (no deadlock); ended means nothing is RUNNING, finished children keep their results and abandoned ones are halted |
| Parallels.FinishedChildIsFrozen | xparo/bt_engine/composites.py:37-44 | a finished child of either parallel is not re-ticked while the parallel is RUNNING |
| Parallels.FinishedChildStaysFrozen | xparo/bt_engine/composites.py:37-44 | over all the ticks of an activation, the one that ends it included: what has finished stays as it is |
| Parallels.ParallelAllVerdict | xparo/bt_engine/builtins.py:524-552 | ParallelAll waits for every child, then fails exactly if at least max(limit, 1) failed, with the limit read when it was activated; if that cannot be read it fails and every child is halted |
| Parallels.MinusOneMeansAll | xparo/bt_engine/builtins.py:76-78 | a limit of -1 means every child must have failed |
| Parallels.MemoryKeepsPassed | xparo/bt_engine/builtins.py:498-516 | one tick of a SequenceWithMemory touches neither the children before its index nor those behind the one it stops at, whose status it has |
| Parallels.PassedStaysPassed | xparo/bt_engine/builtins.py:498-516 | over any number of ticks, failures in between included: a SequenceWithMemory does not touch what it has passed and never goes back, until all its children have succeeded; then it starts over |
| Parallels.HaltedStartsOver | xparo/bt_engine/builtins.py:518-521 | a halt sends it back to its first child; a stop with any other status does not |
| LoopFuel.TickIsRounds | xparo/bt_engine/builtins.py:265-319 | one tick with any bound on synchronous rounds is between one and that many rounds of the unbounded loop |
| LoopFuel.BoundIsTransparent | xparo/bt_engine/builtins.py:33 | a loop that ends after n unbounded rounds ends with the same tree and world in at most n ticks under any bound, and conversely |
| LoopFuel.BoundsAgree | xparo/bt_engine/builtins.py:33 | two bounds give the same final tree and world |
| LoopFuel.StartThenLoop | xparo/bt_engine/builtins.py:234-246 | the tick that starts an activation configures the node and then is a tick of the running node; a configuration error fails it |
| LoopFuel.CountedLoop | xparo/bt_engine/builtins.py:265-306 | Repeat(N) succeeds after exactly max(1, N) child successes and Retry(N) fails after exactly max(1, N) failures, whatever the outcomes are; before that nothing ends them but the opposite outcome; negative N never ends by counting |
| LoopFuel.RepeatCountsFromZero | xparo/bt_engine/builtins.py:265-306 | every activation of Repeat and RetryUntilSuccessful reads its port and counts from zero, so the counts above are those of the activation |
| LoopFuel.LoopTakesTheWholeQueue | xparo/bt_engine/builtins.py:443-470 | every activation of a Loop starts with the whole queue of its port, of which it writes and leaves exactly all; if that queue is empty it answers `if_empty` and does not touch its child |
| LoopFuel.KeepRunningLoop | xparo/bt_engine/builtins.py:309-319 | KeepRunningUntilFailure never ends with SUCCESS, and has failed exactly if a tick of its child has |
| LoopFuel.LoopConservesItems | xparo/bt_engine/builtins.py:434-470 | the items a Loop has written plus its remaining queue are always the initial queue, and it succeeds with the queue empty |
| LoopFuel.TickIsAtMostFiftyRounds | xparo/bt_engine/builtins.py:265-319 | one tick of a running loop is at most fifty rounds, and stops short of fifty only if the loop is over, its child goes on, or a Loop has nothing left |
| LoopWrites.LoopWritesItsItems | xparo/bt_engine/builtins.py:456-465 | read off the world, in which every write leaves a line: after any number of rounds the lines of a Loop are those before and then, in order, the items it took from its queue; nothing else below it adds to them |
| LoopWrites.RoundTakes | xparo/bt_engine/builtins.py:456-465 | in a round that takes an item the child is stopped, and ticked in a world in which the last line of the Loop is the item that was at the head of its queue |
| LoopWrites.ActivationWritesTheQueue | xparo/bt_engine/builtins.py:443-470 | over an activation of any number of ticks: what the Loop wrote, followed by what is left in its queue, is the queue its port had at the start; a Loop that succeeded wrote all of it |
| BehaviourObjects.Behaviour.Stop | xparo/bt_engine/builtins.py:518-521 | `stop` with halting of children, on node objects updated in place: the new state of every object below and the new world are those of BehaviourTrees.Stop |
| BehaviourObjects.Behaviour.HaltKids | xparo/bt_engine/composites.py:24-27 | the loops that stop children, on node objects updated in place: the new state of every object below and the new world are those of BehaviourTrees.HaltKids |
| BehaviourObjects.Behaviour.RestartChild | xparo/bt_engine/builtins.py:260-262 | `_restart_child`, on node objects updated in place: the new state of every object below and the new world are those of BehaviourTrees.RestartChild |
| BehaviourObjects.Behaviour.Finish | xparo/bt_engine/builtins.py:255-258 | `_finish`, on node objects updated in place: the new state of every object below and the new world are those of BehaviourTrees.Finish |
| BehaviourObjects.Behaviour.Tick | xparo/bt_engine/builtins.py:224-653 | `tick` of every kind of node, on node objects updated in place: the new state of every object below and the new world are those of BehaviourTrees.Tick |
| BehaviourObjects.Behaviour.TickConditional | xparo/bt_engine/tree_builder.py:101-147 | `ConditionalDecorator.tick`, on node objects updated in place: the new state of every object below and the new world are those of BehaviourTrees.TickConditional |
| BehaviourObjects.Behaviour.TickPlain | xparo/bt_engine/builtins.py:672-674 | py_trees' result-mapping decorators and SubTree, on node objects updated in place: the new state of every object below and the new world are those of BehaviourTrees.TickPlain |
| BehaviourObjects.Behaviour.TickDecorator | xparo/bt_engine/builtins.py:234-246 | `_Decorator.tick`, on node objects updated in place: the new state of every object below and the new world are those of BehaviourTrees.TickDecorator |
| BehaviourObjects.Behaviour.Configure | xparo/bt_engine/builtins.py:248-453 | `configure` of every decorator, on node objects updated in place: the new state of every object below and the new world are those of BehaviourTrees.Configure |
| BehaviourObjects.Behaviour.DoStep | xparo/bt_engine/builtins.py:251-428 | `step` of every decorator, on node objects updated in place: the new state of every object below and the new world are those of BehaviourTrees.DoStep |
| BehaviourObjects.Behaviour.Rounds | xparo/bt_engine/builtins.py:272-319 | the synchronous loops, as a loop, on node objects updated in place: the new state of every object below and the new world are those of BehaviourTrees.Rounds |
| BehaviourObjects.Behaviour.NextItem | xparo/bt_engine/builtins.py:456-465 | taking the next item of a Loop queue, on node objects updated in place: the new state of every object below and the new world are those of BehaviourTrees.NextItem |
| BehaviourObjects.Behaviour.AfterChild | xparo/bt_engine/builtins.py:272-319 | what a round makes of the child's result, on node objects updated in place: the new state of every object below and the new world are those of BehaviourTrees.AfterChild |
| BehaviourObjects.Behaviour.TickSequence | xparo/bt_engine/node_registry.py:44-62 | a sequence of py_trees, on node objects updated in place: the new state of every object below and the new world are those of BehaviourTrees.TickSequence |
| BehaviourObjects.Behaviour.TickSelector | xparo/bt_engine/node_registry.py:44-62 | a selector of py_trees, on node objects updated in place: the new state of every object below and the new world are those of BehaviourTrees.TickSelector |
| BehaviourObjects.Behaviour.TickSequenceWithMemory | xparo/bt_engine/builtins.py:498-516 | `SequenceWithMemory.tick`, as a loop, on node objects updated in place: the new state of every object below and the new world are those of BehaviourTrees.MemoryFrom |
| BehaviourObjects.Behaviour.TickUnfinished | xparo/bt_engine/composites.py:37-44 | ticking the unfinished children, as a loop, on node objects updated in place: the new state of every object below and the new world are those of BehaviourTrees.TickUnfinished |
| BehaviourObjects.Behaviour.CountChildren | xparo/bt_engine/composites.py:46-47 | counting children by status, on node objects updated in place: the new state of every object below and the new world are those of BehaviourTrees.Count |
| BehaviourObjects.Behaviour.TickParallelAll | xparo/bt_engine/builtins.py:528-552 | `ParallelAll.tick`, on node objects updated in place: the new state of every object below and the new world are those of BehaviourTrees.TickParallelAll |
| BehaviourObjects.Behaviour.TickCounting | xparo/bt_engine/composites.py:21-69 | `CountingParallel.tick`, on node objects updated in place: the new state of every object below and the new world are those of BehaviourTrees.TickCounting |
| BehaviourObjects.Behaviour.TickIfThenElse | xparo/bt_engine/builtins.py:559-583 | `IfThenElse.tick`, on node objects updated in place: the new state of every object below and the new world are those of BehaviourTrees.TickIfThenElse |
| BehaviourObjects.Behaviour.AskCondition | xparo/bt_engine/builtins.py:563-583 | asking the condition and running the branch it picks, on node objects updated in place: the new state of every object below and the new world are those of BehaviourTrees.AskCondition |
| BehaviourObjects.Behaviour.HaltIfRunning | xparo/bt_engine/builtins.py:485-487 | `_halt`, on node objects updated in place: the new state of every object below and the new world are those of BehaviourTrees.HaltIfRunning |
| BehaviourObjects.Behaviour.TickWhileDoElse | xparo/bt_engine/builtins.py:590-612 | `WhileDoElse.tick`, on node objects updated in place: the new state of every object below and the new world are those of BehaviourTrees.TickWhileDoElse |
| BehaviourObjects.Behaviour.TickSwitch | xparo/bt_engine/builtins.py:635-653 | `Switch.tick`, on node objects updated in place: the new state of every object below and the new world are those of BehaviourTrees.TickSwitch |
| Blackboards.VersionsCountWrites | xparo/bt_engine/builtins.py:191-219 | over every run of operations, an entry's version grows by exactly the number of operations that wrote it |
| Blackboards.ChangesAreNoticed | xparo/bt_engine/builtins.py:186-219 | the version differs exactly if the entry was written in between; an entry that changed, or came or went, always has a greater version |
| Blackboards.LastWriteStands | xparo/bt_engine/builtins.py:196-219 | an entry is what the last operation that wrote it left there |
| Blackboards.LooksTellWrites | xparo/bt_engine/builtins.py:170-183 | WasEntryUpdated's first look tells whether the entry was ever written, every later one whether it was written since the look before |
| Blackboards.EntriesAreCounted | xparo/bt_engine/builtins.py:196-198 | every entry that is present has a version above zero |
| Blackboards.PopOfNothingCounts | xparo/bt_engine/builtins.py:208-210 | a pop of a missing entry passes for an update |
| Blackboards.TrackedBlackboard.constructor | xparo/bt_engine/builtins.py:196-198 | the dictionary and its versions afterwards, and what is returned |
| Blackboards.TrackedBlackboard.SetItem | xparo/bt_engine/builtins.py:200-202 | the dictionary and its versions afterwards, and what is returned |
| Blackboards.TrackedBlackboard.DeleteItem | xparo/bt_engine/builtins.py:204-206 | the dictionary and its versions afterwards, and what is returned |
| Blackboards.TrackedBlackboard.PopItem | xparo/bt_engine/builtins.py:208-210 | the dictionary and its versions afterwards, and what is returned |
| Blackboards.TrackedBlackboard.Default | xparo/bt_engine/builtins.py:212-215 | the dictionary and its versions afterwards, and what is returned |
| Blackboards.TrackedBlackboard.UpdateAll | xparo/bt_engine/builtins.py:217-219 | the dictionary and its versions afterwards, and what is returned |
| TreeDocuments.ArityCheckIsEnough | xparo/bt_engine/builtins.py:698-714 | a built-in that passes the arity check has a number of children its node can run with |
| TreeDocuments.ArityProblemMeansOutside | xparo/bt_engine/tree_builder.py:359-372 | the arity check complains exactly if the number of children is outside the limits of the tag |
| TreeAgreement.CheckerAgreesWithBuilder | xparo/bt_engine/tree_builder.py:297-494 | for every document, registry and resolver, within the limits of size: a build that succeeds was validated without error; a build that gives up does so at the first error listed, with its cause and path, or at one of the two things only the builder notices |
| TreeAgreement.BuildFailsExactly | xparo/bt_engine/tree_builder.py:297-494 | for every document, registry and resolver, within the limits of size: the build fails exactly if validation lists an error, or the walk meets a SubTree with children or an element whose builder raises |
| TreeAgreement.ChildfulSubtreeSlipsThrough | xparo/bt_engine/tree_builder.py:379-380 | the gap: a concrete document that validates without any problem and does not build |
| TreeAgreement.RefusedCountSlipsThrough | xparo/bt_engine/node_registry.py:65-73 | the other gap: a Parallel whose `success_count` is no number validates without any problem and does not build |
| TreeAgreement.NodeMatches | xparo/bt_engine/tree_builder.py:297-494 | the build gives up exactly where a walk that also looks for these two things finds its first error, for the same cause, from any element, depth, stack and known trees on; without one both know the same trees afterwards |
| TreeAgreement.WalksAgree | xparo/bt_engine/tree_builder.py:432-491 | that walk and the repository's find the same first error up to the first of the two things, and without any error they end alike |
| TreeAgreement.BuiltIsReady | xparo/bt_engine/tree_builder.py:297-398 | whatever is built can run, has no started node and nothing remembered, and its nodes are numbered without gaps in visiting order |
| TreeAgreement.BuiltIsMeasured | xparo/bt_engine/tree_builder.py:197-356 | the tree below an element has exactly as many nodes, condition wrappers aside, as the walk counts elements, and at most as many levels as the depth limit leaves; no wrapper has a wrapper as its child |
| TreeAgreement.WrappersAtMostDouble | xparo/bt_engine/tree_builder.py:197-214 | with the wrappers there are at most twice as many nodes |
| TreeAgreement.CleanCountIsSmall | xparo/bt_engine/tree_builder.py:434-444 | a validation without errors has walked at most 4000 elements, whatever registry and resolver |
| TreeAgreement.LimitIsReported | xparo/bt_engine/tree_builder.py:434-444 | a violated size or depth limit always leaves an error in the list |
| TreeAgreement.CleanMeansSmall | xparo/bt_engine/tree_builder.py:24-35 | a document that validates cleanly and in which the builder notices nothing else builds; wrappers aside the tree has exactly the elements counted, at most 4000 on at most 201 levels; with them at most twice as many nodes |
| TreeAgreement.ValidatedTreesRunTidily | xparo/bt_engine/executor.py:171-182 | such a document builds, and keeps the whole-tree invariant through every run |
| TagMeanings.ParallelMeans | xparo/bt_engine/node_registry.py:65-73 | from document to verdict: what is built of a Parallel with n children fails once `failure_count` of them have failed, otherwise succeeds once `success_count` have succeeded, otherwise fails if too few are left for that; a negative count is n + count + 1 |
| TagMeanings.ParallelAllMeans | xparo/bt_engine/builtins.py:524-552 | of a ParallelAll: it waits for all and fails if `max_failures`, and at least one, failed; the port is read when the activation begins |
| TagMeanings.SequenceMeans | xparo/bt_engine/node_registry.py:56-61 | of a Sequence, AsyncSequence (resuming) and ReactiveSequence (from the first child every time) |
| TagMeanings.FallbackMeans | xparo/bt_engine/node_registry.py:57-62 | of a Fallback, Selector, AsyncFallback (resuming) and ReactiveFallback (from the first child every time) |
| TagMeanings.MemoryMeans | xparo/bt_engine/builtins.py:498-521 | of a SequenceWithMemory and a SequenceStar: what it has passed is not ticked again, not after a failure either |
| TagMeanings.IfThenElseMeans | xparo/bt_engine/builtins.py:555-583 | of an IfThenElse: the end of the condition picks the branch for the activation; two children and a failed condition fail |
| TagMeanings.WhileDoElseMeans | xparo/bt_engine/builtins.py:586-612 | of a WhileDoElse: the condition of every tick picks the branch, and the other is halted |
| TagMeanings.SwitchMeans | xparo/bt_engine/builtins.py:626-653 | of a Switch2 to Switch6: the first case that matches, or the last child, gives the result |
| TagMeanings.TranslatorsMean | xparo/bt_engine/builtins.py:672-674 | of an Inverter, ForceSuccess and ForceFailure: the result for each of the child's |
| TagMeanings.GatesMean | xparo/bt_engine/builtins.py:322-428 | of a Delay, Precondition, SkipUnlessUpdated and WaitValueUpdate, in the tick that starts them: whether the child is ticked, and what is answered otherwise |
| TagMeanings.TimeoutMeans | xparo/bt_engine/builtins.py:335-349 | of a Timeout: a child still RUNNING when its time since the start is over is halted, and that is a FAILURE |
| TagMeanings.RunOnceMeans | xparo/bt_engine/builtins.py:352-371 | of a RunOnce: its child until that has ended, then that result, or SUCCESS if it is to skip |
| TagMeanings.CountersMean | xparo/bt_engine/builtins.py:265-306 | of a Repeat and a RetryUntilSuccessful: over any number of rounds, ended by max(1, N) successes or failures of the child, or by the first opposite result |
| TagMeanings.KeepRunningMeans | xparo/bt_engine/builtins.py:309-319 | of a KeepRunningUntilFailure: FAILURE exactly if a tick of its child failed, else RUNNING |
| TagMeanings.LoopsMean | xparo/bt_engine/builtins.py:434-470 | of the four Loop tags: over an activation the items of the queue are written from the first to the last; an empty queue gives `if_empty` |
| TagMeanings.LeavesMean | xparo/bt_engine/builtins.py:698-702 | of the built-in leaves: no children, the result is that of `update`, and the calls are in order |
| TagMeanings.PluginsMean | xparo/bt_engine/tree_builder.py:297-356 | a tag that only a plugin knows is built unless its own builder raises, and acts as a leaf |
| TagMeanings.ConditionsMean | xparo/bt_engine/tree_builder.py:101-214 | which attribute makes which result: _skipIf, _failureIf, _successIf and _while, in this order, before the node is ticked; without any of them deciding the node is what it is |
| TagMeanings.ChildrenAreMade | xparo/bt_engine/tree_builder.py:339 | the children of the node are made of the children of the element, one for one and in order |
| TagMeanings.SubTreesMean | xparo/bt_engine/tree_builder.py:375-398 | a SubTree has for its child what is made of the tree behind its trimmed ID, and gives its result |
| TagMeanings.RunsKeepNodes | xparo/bt_engine/executor.py:171-182 | in every run of every tree, at any path, the node of an element stays one of which all this holds |
| TagMeanings.NodeIsApart | xparo/bt_engine/tree_builder.py:297-356 | a node with one child does not have the id of any node below it, as the statements about what a Loop writes ask |
| TreeReports.ConditionWarningsTell | xparo/bt_engine/tree_builder.py:446-449 | a condition attribute is warned about exactly if it is there and cannot be read |
| TreeReports.NodeProblemsTell | xparo/bt_engine/tree_builder.py:472-488 | an element is reported as unknown, with a wrong number of children, without any, or with a bad script, exactly when it is |
| TreeReports.SubtreeProblemsTell | xparo/bt_engine/tree_builder.py:451-471 | which of the five things is said of a SubTree, exactly: no ID, children (by the builder), a tree inside itself, more than 16 deep, not found |
| TreeReports.KnownTags | xparo/bt_engine/builtins.py:690-714 | the tags that are known without plugins, by name |
| TreeReports.DecoratorLimits | xparo/bt_engine/builtins.py:703-707 | every decorator and Loop tag takes one child |
| TreeReports.ControlLimits | xparo/bt_engine/builtins.py:710-714 | sequences, fallbacks and parallels take any number |
| TreeReports.BranchLimits | xparo/bt_engine/builtins.py:708-709 | IfThenElse and WhileDoElse take two or three, SwitchN takes N + 1 |
| TreeReports.ValidationTellsLimits | xparo/bt_engine/tree_builder.py:432-444 | "too many elements" is said only of more than 4000, and more than 4000 are never walked in silence |
| TreeReports.LimitsAreTold | xparo/bt_engine/tree_builder.py:434-444 | the same from any element on; below 200 levels there is always a report |
| TreeReports.LookupLearns | xparo/bt_engine/tree_builder.py:228-252 | a lookup finds what is known under an ID, else what the resolver answers, keeps it, adds the other trees of its document, and forgets or replaces nothing |
| TreeReports.BuildRemembers | xparo/bt_engine/tree_builder.py:297-398 | and so through a whole build |
| TreeReports.StripTrims | xparo/bt_engine/tree_builder.py:375-378 | an ID is the attribute without the white space at its ends |
| TreeReports.PathsNameTheAncestors | xparo/bt_engine/tree_builder.py:432-491 | every problem found below an element has a path that begins with the path of the element |
| TreeWalkers.Context.Find | xparo/bt_engine/tree_builder.py:228-252 | the lookup and what it remembers: the answer and the known trees are those of TreeDocuments.FindSubtree and Remembered |
| TreeWalkers.Context.AddOthers | xparo/bt_engine/tree_builder.py:274-278 | the other trees of a document become known unless they were before |
| TreeWalkers.Context.CheckSubtree | xparo/bt_engine/tree_builder.py:375-389 | the checks on a SubTree element in their order, with the builder's extra one |
| TreeWalkers.Validator.Visit | xparo/bt_engine/tree_builder.py:432-491 | the checking walk with its list, counter and stack does what TreeChecking.Visit says, for every document and resolver (and ends) |
| TreeWalkers.Validator.AddLimit | xparo/bt_engine/tree_builder.py:435-444 | only the first violated limit is listed |
| TreeWalkers.Builder.BuildNode | xparo/bt_engine/tree_builder.py:297-356 | the building walk makes node objects of their own that form exactly the tree of TreeChecking.BuildNode, or fails with its cause and path |
| TreeWalkers.Builder.BuildSubtree | xparo/bt_engine/tree_builder.py:375-398 | expansion of one SubTree with the stack restored in every case |
| TreeWalkers.Builder.BuildChildren | xparo/bt_engine/tree_builder.py:339 | the children in order, up to the first that cannot be built |
| TreeWalkers.Builder.Wrap | xparo/bt_engine/tree_builder.py:197-214 | one wrapper if any condition attribute is set, none otherwise |
| RunTraces.LookSendsTheDifferences | xparo/bt_engine/executor.py:219-239 | a look at the tree sends exactly the nodes whose status differs from what a listener believes, in order, after which the listener is right |
| RunTraces.RecordIsKept | xparo/bt_engine/executor.py:210-219 | the timeline stays the first 400 changes and the last at most 150 later ones, with kept plus dropped the total |
| RunTraces.LookIsFaithful | xparo/bt_engine/executor.py:230-237 | one node's change keeps updates genuine, beliefs equal to the remembered statuses, and the timeline exact |
| RunLoop.TraceIsFaithful | xparo/bt_engine/executor.py:198-297 | in every run, for any number of rounds and any outside world: replaying the updates from all INVALID gives every node's status, each update starts from the status before, and the timeline is exact |
| RunLoop.EndedRunsAreQuiet | xparo/bt_engine/executor.py:249-290 | a run that ended leaves no node RUNNING exactly if it was not stopped by the tick limit, or that limit allowed no tick |
| RunLoop.TickLimitLeavesItRunning | xparo/bt_engine/executor.py:249-279 | the tick limit does leave a node RUNNING: a concrete run of one tick |
| RunLoop.NothingStaysHighlighted | xparo/bt_engine/executor.py:279-290 | after a timeout or a cancellation a listener believes no node to be RUNNING |
| RunLoop.StopsAtTheFirstReason | xparo/bt_engine/executor.py:249-273 | a run ticks once per round as long as it is not cancelled, before its deadline and within its tick limit, and no longer: at the first round at which one of these fails it stops, with that reason; cancelling goes before the deadline, and that before the limit |
| RunLoop.LoopIsARun | xparo/bt_engine/executor.py:249-290 | the run loop is a run of the tree in the sense above: a tick per round and perhaps a halt, in its one environment, each in the world that the one before left and what happened meanwhile; its tree is the one these lead to |
| TaskRuns.ValidatedTasksRunFaithfully | xparo/bt_engine/executor.py:156-188 | from document to report: a clean validation in which the builder notices nothing else, the build, and then a faithful trace and a quiet end in every run |
| TaskRuns.ValidatedNodesKeepTheirPromise | xparo/bt_engine/executor.py:171-182 | and every node of the tree, at any path, keeps the promise of its kind through the run of the loop, in its environment and between the worlds of its ticks |
| TaskRuns.NodesAreNumbered | xparo/bt_engine/tree_builder.py:297-398 | the builder's numbers are unique and in the order in which the tree is walked |
| Executors.Executor.RecordChange | xparo/bt_engine/executor.py:210-219 | `_record_change` on the list, the bounded queue and the counter |
| Executors.Executor.OnPostTick | xparo/bt_engine/executor.py:221-239 | `_on_post_tick` on node objects |
| Executors.Executor.TickLoop | xparo/bt_engine/executor.py:198-290 | `_tick_loop` on node objects and its own variables: result, tree, world and trace are those of RunLoop.Loop |
| Framing.ChunkingDoesNotMatter | xparo/transports/tethered_tcp.py:210-243 | for every way of cutting a stream into chunks, the decoder ends with the same messages and the same residue as on the whole stream |
| Framing.DrainAppend | xparo/transports/tethered_tcp.py:227-243 | decoding a prefix first and the rest later changes nothing |
| Framing.DrainIsSound | xparo/transports/tethered_tcp.py:227-243 | every emitted message is, in order and without overlap, a packed message in the stream; the stream is gaps, frames, skipped bytes and the residue |
| Framing.DecodeInvertsEncode | xparo/transports/tethered_tcp.py:79-81 | packed messages with MAGIC-free garbage before each come out exactly, and what follows is decoded as if it stood alone |
| Framing.StreamOfMessages | xparo/transports/tethered_tcp.py:79-81 | MAGIC-free garbage followed by messages yields these messages and an empty buffer |
| Framing.GarbageIsSilent | xparo/transports/tethered_tcp.py:227-231 | garbage without MAGIC yields nothing and leaves less than a header |
| Framing.NoEarlierMagic | xparo/transports/tethered_tcp.py:75 | MAGIC does not overlap itself: garbage in front of it creates no earlier occurrence |
| Framing.FalseHeaderStalls | xparo/transports/tethered_tcp.py:231-243 | a false header keeps the decoder from doing anything exactly as long as fewer bytes follow than it claims; from then on, unless their checksum is right by chance, the decoder goes on from the next byte |
| Framing.FalseHeaderIsOvercome | xparo/transports/tethered_tcp.py:237-241 | and then the messages behind it come out exactly, if nothing in between contains MAGIC |
| Framing.PackedAfterGarbage | xparo/transports/tethered_tcp.py:227-243 | MAGIC-free garbage, messages and any tail: these messages, then what the tail alone gives |
| Framing.FramesArePrefixFree | xparo/transports/tethered_tcp.py:79-81 | a stream of frames can be read in one way only |
| Framing.BigEndianRoundTrip | xparo/transports/tethered_tcp.py:81 | the length and checksum fields read back as written |
| Framing.FrameLayout | xparo/transports/tethered_tcp.py:75-81 | the bytes on the wire: ROVC, the type, length and checksum with the high byte first, the payload |
| Framing.Receiver.Receive | xparo/transports/tethered_tcp.py:226-243 | one chunk: the buffer and the queue afterwards, by an in-place loop with the buffer length as its measure |
| Framing.Receiver.RecvLoop | xparo/transports/tethered_tcp.py:210-243 | a session until the peer closes: buffer and queue are those of decoding the concatenated chunks at once |
| LinkRoles.ActiveExists | xparo/transports/tethered_tcp.py:353-360 | after every update a channel is active exactly if one is connected, and it is connected |
| LinkRoles.SecondaryExists | xparo/transports/tethered_tcp.py:362-365 | a secondary exists exactly if two channels are connected, and it is a connected channel other than the active one |
| LinkRoles.ActiveIsSticky | xparo/transports/tethered_tcp.py:343-360 | without a forced channel the active one changes only when it is gone, and then to the best priority |
| LinkRoles.ForcedTakesOver | xparo/transports/tethered_tcp.py:328-335 | a forced channel that is connected is active |
| LinkRoles.SecondaryIsSticky | xparo/transports/tethered_tcp.py:362-365 | the secondary changes only when it is gone or became the active channel, and then to the best priority among the others |
| LinkRoles.LabelsAreUnique | xparo/transports/tethered_tcp.py:370-378 | a channel is labelled down exactly if it is; one is labelled active if any is up, one secondary if two are, no two alike, and these are the channels in use |
| LinkRoles.OverrideRules | xparo/transports/tethered_tcp.py:328-360 | in every run of updates and overrides: after each update in which the channel is up that the last override named, it is active |
| LinkRoles.CallbacksAlternate | xparo/transports/tethered_tcp.py:380-390 | in every run of updates and overrides the callbacks are a prefix of connected, lost, restored, lost, ..., and their number says whether the link is up |
| LinkRoles.Transport.UpdateRoles | xparo/transports/tethered_tcp.py:343-390 | `_update_roles` on the transport's fields: names, latches, labels and callbacks are those of LinkRoles.Update |
| LinkRoles.Transport.ForceActive | xparo/transports/tethered_tcp.py:328-335 | an unknown name clears the override |
| ProblemTable.DiagnosticIsWellKept | xparo/health.py:47-69 | after every status the active diagnostics entries are exactly one per component whose last status is a problem level |
| ProblemTable.LogIsWellKept | xparo/health.py:43-45 | a log line keeps the table in order and leaves the active entries and the components' last problems as they are |
| ProblemTable.EvictionSparesActive | xparo/health.py:123-132 | eviction removes no active entry and changes none, and stops when the table fits or only active ones are left |
| ProblemTable.EvictionDropsOldest | xparo/health.py:126-132 | what is evicted is older than every inactive entry that stays |
| ProblemTable.NewestSurvives | xparo/health.py:123-132 | a newest inactive entry survives its own insertion exactly if fewer than max_entries entries are active |
| ProblemReplica.RunInSync | xparo/health.py:72-132 | over whole runs: a flush at any time makes the dashboard, which adds deltas and copies flags, agree with every entry, if and only if no log line that was evicted at once is logged again with room before the next flush |
| ProblemReplica.RunIsAccounted | xparo/health.py:72-132 | over all runs: an entry's count equals the deltas sent since it was created plus what is pending, less the one occurrence that was pending when an evicted problem found room; every unflushed change is marked |
| ProblemReplica.LogAccounted | xparo/health.py:97-132 | a log line is evicted at once, with its occurrence still pending, exactly if its problem is not in the table and max_entries problems are active; it is counted double exactly if that happened to it since the last flush and there is room now |
| ProblemReplica.DiagnosticAccounted | xparo/health.py:47-69 | a diagnostic status is never evicted at once and counts nothing double |
| ProblemReplica.FlushTellsAll | xparo/health.py:72-91 | right after a flush the dashboard shows every entry's active flag, and its count exactly, or one more if the entry was created while its problem was pending without an entry |
| ProblemReplica.DashboardRunsAhead | xparo/health.py:97-115 | a concrete run from the start: a line counted once, of which the next flush reports two |
| ProblemReplica.FullFlushNamesActive | xparo/health.py:79-91 | a full flush names exactly the active problems as active, and every other changed entry as well; what was evicted is not named |
| ProblemReplica.RunCountsEdges | xparo/health.py:47-69 | over whole runs with messages of at most 2000 characters: an entry's count is the number of times its component changed into that level and message since the entry was created |
| ProblemReplica.RepublishingIsFreeIfShort | xparo/health.py:58-65 | republishing a status counts nothing exactly if its message is short enough to be stored whole; longer ones count every time |
| ProblemTimes.EntriesTellTheirReports | xparo/health.py:43-115 | over whole runs: an entry shows when its problem was first and last reported since it came into the table, and the hardware of the first of these reports |
| ProblemTimes.StepTells | xparo/health.py:43-115 | each single input keeps that; only a report of a problem brings it into the table |
| ProblemTrackers.ProblemTracker.RecordLog | xparo/health.py:43-45 | on the dictionaries and the dirty set: the table of ProblemTable.RecordLog |
| ProblemTrackers.ProblemTracker.RecordDiagnostic | xparo/health.py:47-69 | the table of ProblemTable.RecordDiagnostic |
| ProblemTrackers.ProblemTracker.Flush | xparo/health.py:72-91 | returns the changes of ProblemTable.Changes and clears what was pending |
| ProblemTrackers.ProblemTracker.Occur | xparo/health.py:97-115 | `_occurrence`: the table of ProblemTable.Occurrence |
| ProblemTrackers.ProblemTracker.SetComponentInactive | xparo/health.py:117-121 | the loop over entries that resolves a component's problems |
| ProblemTrackers.ProblemTracker.Evict | xparo/health.py:123-132 | the loop that drops the oldest inactive entries |
| AdPlays.EveryPlayIsLoggedOnce | xparo/ads/manager.py:170-291 | in every reachable state, for any interleaving of ticks, duplicate, late or synchronous callbacks, watchdog expiry, screenshots, log writes and restarts: every play of the process is on screen, about to be logged, or logged, exactly once; rows tell the play they belong to; an attached picture was taken while its play was on screen |
| AdPlays.RowTellsTheEnd | xparo/ads/manager.py:270-291 | over all runs: a play's row has the status of the callback that ended it, or says error if a tick after its deadline did, and the end that was written with it |
| AdPlays.StepIsAccounted | xparo/ads/manager.py:170-291 | each single locked region keeps that, and never changes what is known of an earlier play |
| AdPlays.FinishedIsAccounted | xparo/ads/manager.py:270-281 | a callback frees at most the play it names; a stale one changes nothing at all |
| AdPlays.AttachIsAccounted | xparo/ads/manager.py:257-264 | a picture is attached if its play is on screen; for a play that is not, no slot changes |
| AdTurns.EverySlotPlaysOnce | xparo/ads/manager.py:192-207 | a once/timed ad starts at most once per ad and slot in a process |
| AdTurns.LoggedSlotIsNotShownAgain | xparo/ads/manager.py:195-207 | a slot with a start, whose showing since then was logged, is never shown again, in this process or after any number of restarts, if queues agree on when a slot starts |
| AdTurns.ShownAgainExactly | xparo/ads/manager.py:195-207 | an ad shown once and logged is shown again in the same slot after a restart exactly if the slot has no start or the showing was before it |
| AdTurns.FirstLookDecides | xparo/ads/playlog.py:109-113 | a first look takes a slot for shown exactly if some play of the same ad was logged since the slot began |
| AdTurns.AnotherSlotCountsToo | xparo/ads/manager.py:195-207 | so a booking that was never shown can pass for shown: a concrete run with two bookings of one ad |
| AdTurns.DueIsNotDone | xparo/ads/manager.py:183-185 | an ad that is due has not been settled, and a look settles only slots it sees for the first time |
| AdTurns.RotationIsFair | xparo/ads/manager.py:183-189 | then any n consecutive starts in the placement are the n due ads rotated, so each is shown exactly once |
| AdTurns.SettledQueueIsSameDue | xparo/ads/manager.py:183-207 | which is so for an unchanged queue whose once/timed ads, if any, have had their slots: the others are always due |
| AdTurns.AdsTakeTurns | xparo/ads/manager.py:183-189 | as long as the same ads are due whenever one starts in a placement, whatever else happens in the process, the m-th start there is the ad whose turn it is, counted from the index |
| AdTurns.OnlyItsOwnEndFreesAPlay | xparo/ads/manager.py:179-182 | a play leaves the screen exactly by its own callback, by a tick after its deadline, or with the process; it alone is then to be logged, with the status of the callback, or as an error after the deadline |
| AdTurns.PlaysGetTheirTime | xparo/ads/manager.py:209-229 | a play nobody ends keeps the screen, whatever else happens, through every tick up to its time and a minute more: the ad's own length or 15 s, and for a full-slot ad until a second before the slot ends, but at least 5 s |
| AdTurns.PlaysEndInTime | xparo/ads/manager.py:179-182 | and no longer: the first look after that ends it, as an error |
| AdTurns.DismissalGivesTheScreenBack | xparo/ads/manager.py:276-281 | after a viewer closed a repeat or full-slot ad nothing is shown there for 30 s; after anything else for 0.5 s |
| AdTurns.PausesEnd | xparo/ads/manager.py:183-190 | and no longer: the next look at which an ad is due there starts one |
| AdTurns.OneProofPerHour | xparo/ads/manager.py:242-263 | in one run of the program a screenshot is begun exactly for a play on screen, and for an ad and an hour for which none was kept yet |
| AdManagers.AdManager.IsSlotDone | xparo/ads/manager.py:195-207 | `_slot_done` on the two sets and the log |
| AdManagers.AdManager.DueNow | xparo/ads/manager.py:185 | the due ads of a queue and what the look settles |
| AdManagers.AdManager.Start | xparo/ads/manager.py:220-229 | `_start`: slot, deadline, settled slots and a fresh token |
| AdManagers.AdManager.Release | xparo/ads/manager.py:272-281 | the locked part of `_finish` |
| AdManagers.AdManager.FinishPlay | xparo/ads/manager.py:270-291 | `_finish`: a row for a play on screen, nothing for any other token |
| AdManagers.AdManager.ServePlacement | xparo/ads/manager.py:177-190 | one placement's part of `tick` |
| AdManagers.AdManager.Tick | xparo/ads/manager.py:170-190 | `tick` over all placements |
| AdManagers.AdManager.TickIsARun | xparo/ads/manager.py:170-190 | a tick is a run of steps, so all that holds of runs holds of it |
| AdManagers.AdManager.BeginProof | xparo/ads/manager.py:242-247 | the first locked region of `_take_proof` |
| AdManagers.AdManager.AttachProof | xparo/ads/manager.py:257-264 | its last one: kept exactly if the play is still on screen |
| PlayLogs.BatchIsTheFirstDue | xparo/ads/playlog.py:51-62 | a batch is the first rows due, in order, and exactly those are no longer due |
| PlayLogs.BatchesSendEachOnce | xparo/ads/playlog.py:51-62 | batch after batch, every due row is sent exactly once |
| PlayLogs.ReconnectSendsEverything | xparo/ads/playlog.py:103-107 | after a reconnect enough batches send every play the server has not answered for |
| PlayLogs.EveryAddedPlayIsKept | xparo/ads/playlog.py:43-68 | in every run from the empty table: the rows are the plays added, in order, and each is waiting, stored or refused as the last answer that named it says |
| PlayLogs.AddedIsDue | xparo/ads/playlog.py:34-62 | a play is due from its addition until it is first sent, and again two minutes after it was last sent, until the server has answered for it |
| PlayLogs.AddedIsSentAfterReconnect | xparo/ads/playlog.py:103-107 | after a reconnect enough batches send every play added that no answer has named |
| PlayLogs.NothingIsLost | xparo/ads/playlog.py:43-113 | whatever is added, sent, acknowledged or marked unsent, every row stays with the same id and record, and stays answered |
| PlayLogs.AnsweredIsFinal | xparo/ads/playlog.py:64-68 | a play the server stored or refused is never sent again, in any run |
| PlayLogs.ResendingIsSpaced | xparo/ads/playlog.py:51-62 | without a reconnect in between, two sendings of one play are more than 120 s apart |
| PlayLogs.MarkedExactly | xparo/ads/playlog.py:59-61 | sending changes nothing but when the rows of the batch were sent |
| PlayLogs.PlayLog.AddRow | xparo/ads/playlog.py:43-49 | `add`: a row at the end with the next id |
| PlayLogs.PlayLog.DueForUpload | xparo/ads/playlog.py:51-62 | `due_for_upload`: the batch and the marked table |
| PlayLogs.PlayLog.AcknowledgeRows | xparo/ads/playlog.py:64-68 | `acknowledge`, row by row; an id both stored and refused counts as refused |
| PlayLogs.PlayLog.MarkRowsUnsent | xparo/ads/playlog.py:103-106 | `mark_unsent`, row by row |
| PlayLogs.PlayLog.Played | xparo/ads/playlog.py:109-113 | `played_since` |
| SendQueue.ImportantSendsAreNeverLost | xparo/engine.py:533-559 | over every interleaving of submits and flushes, each payload was submitted as often as it was sent, waits in the queue, or is in some thread's hands |
| SendQueue.StepConserves | xparo/engine.py:533-559 | each locked region and each attempt keeps that |
| SendQueue.WaitsUntilAccepted | xparo/engine.py:533-559 | read off the run: a payload waits exactly as often as it was handed in and no attempt with it succeeded; so none is kept after it was sent |
| SendQueue.OneFlusherKeepsOrder | xparo/engine.py:546-559 | with one flusher the queue, together with what the flusher holds, stays in the order in which payloads were queued |
| SendQueue.PutBackKeepsOrder | xparo/engine.py:557-559 | with any number of flushes: a put-back leaves the queue in order exactly if nothing is put back, nothing waits, or the last put back was queued before the first that waits |
| SendQueue.OrderIsKeptExactly | xparo/engine.py:546-559 | over whole runs with any number of flushes: the queue is always in order if and only if every put-back is of that kind |
| SendQueue.TwoFlushersReorder | xparo/engine.py:554-559 | if two flushes overlapped and the one that took first put back first, a later payload would come first: a concrete interleaving |
| SendQueue.NestedFlushersKeepOrder | xparo/engine.py:554-559 | if the one that took last puts back first the order is kept, although they overlap as well |
| SendQueue.Engine.SendImportant | xparo/engine.py:533-544 | `_send_important_dict` up to its attempt |
| SendQueue.Engine.TakePending | xparo/engine.py:554-555 | the queue is swapped out |
| SendQueue.Engine.PutBackPending | xparo/engine.py:557-559 | what failed goes in front of what came meanwhile |
| SendQueue.Engine.Flush | xparo/engine.py:546-559 | a whole flush, undisturbed: what failed is left, in order, and every payload stays accounted for |
| SyncText.SameNormalFormMeansHarmlessEdits | xparo/sync_hash.py:13-20 | two texts have the same normal form exactly if line-ending, trailing-blank and final-newline edits, and no others, lead from one to the other |
| SyncText.NormalizeIsIdempotent | xparo/sync_hash.py:13-20 | the normal form is its own normal form |
| SyncText.EndingsDoNotMatter | xparo/sync_hash.py:18 | a text written with CRLF or CR line ends has the normal form of the same text with LF |
| SyncText.CrBeforeCrLf | xparo/sync_hash.py:18 | a bare CR before a line end is not such an edit: a concrete pair of texts |
| SyncText.JoinIsInjective | xparo/sync_hash.py:29 | the NUL join identifies no two different lists of NUL-free parts |
| SyncText.ContentIsFaithful | xparo/sync_hash.py:23-30 | so equal joined contents mean the same number of parts with the same normal forms |

## Left out

- py_trees itself: Sequence, Selector, the result-mapping decorators and `stop` are modelled from what the engine relies
  on (stop(INVALID) halts every child that is not INVALID, children before the node itself; a parallel's stop also halts
  RUNNING children; a memory-less sequence restarts and halts what it did not reach). py_trees is not part of this model.
- Leaves: any leaf is an arbitrary function of the world that ends SUCCESS, FAILURE or RUNNING. What single leaves do
  (Sleep, Script, ROS actions, plugins, process-backed nodes) is not modelled, except WasEntryUpdated's look.
- Node crashes: an exception inside a tick (`node_error`) and an exception while halting are not modelled.
- The generators of py_trees: a tick is one step, so visitors, per-node tick counts and the report's tables are left out.
- Ports and expressions: a port, a condition or a queue is a function of the world; parsing of numbers, of `expr` text
  and of ";"-separated queues is left out. Times are integers.
- NodeRuns.EveryNodeRunsByItself: does not say in which of the worlds that an event of the tree passes through the node is
  ticked when there are several, only their order.
- NodeLives.GateOverRuns: the clock, the ports and the versions are read from one world at the beginning of a tick, so a
  Delay that begins with no time to wait lets its child through in that very tick.
- RunLoop.TraceIsFaithful: does not model the time stamps and names in the events, which are copied from the node.
- Reports: the explanation, failed node and counters of an execution report only read what is modelled.
- XML: documents start as elements with tag, attributes and children; parsing, `main_tree_to_execute` and the choice of
  the main tree are one function of the source text.
- The node registry: the built-in tags keep their limits, further tags are arbitrary; plugins that replace a built-in
  are left out.
- TreeAgreement.CheckerAgreesWithBuilder: assumes a resolver that answers the same each time, and says nothing of
  documents whose first error is their size, which only validation looks at.
- Checksums and hashes: CRC-32 is an arbitrary function of the payload; SHA-1 ids are the tuples they are made of, so
  they never collide; SHA-256 of the joined content is not modelled.
- Sockets, select, liveness timeouts and heartbeats of the link: a chunk is whatever arrived. Channels are listed in the
  order of their priority, ties in the configured order.
- ProblemReplica.FlushTellsAll: does not model the order of a flush by last_seen, which no entry depends on.
- `strip()` of ids in documents removes blanks, tabs and line ends; other white space of Unicode stays.
- ProblemTables take messages as they are: `strip()` of a diagnostic message is left out. The clock never goes back.
- Wall-clock times of ads are integers of seconds and the schedule's rules (days, dates, times) are the queue that a step
  gets. `_proof_hours` is not pruned at 5000 entries, and two pictures of one hour taken at the same time may both be
  kept. Titles, media types, error messages and file deletion are left out.
- AdPlays.EveryPlayIsLoggedOnce: assumes that a log write succeeds; plays that were on screen when the process died have
  no row, and the theorem says so by counting from `born`.
- The screenshot columns of the log (`proof_state` and the ADS_PROOF messages) and plays reported by another shell.
- The socket of important sends: an attempt succeeds or fails as the environment says; add_task_history only feeds the
  same queue.
- Wi-Fi, Bluetooth, OTA, rosbag, launch files, blackbox upload, geometry, hybrid REST fallback and the database outbox:
  single-branch or environment-driven code.
