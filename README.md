# Behaviour tree evaluator, modelled and verified in Dafny

This project models the resumable behaviour-tree evaluator of the
`BlackWinter.BehaviorTrees` library: the control nodes of
`BehaviorTreeNodes.cs` (`BT_Node`, `Sequence`, `Selector`,
`PrioritySelector`, `RandomSelector`, the root `BT_Tree` and the `BT_Leaf`
adapter) and the leaf tasks of `ITasks.cs` (`ActionTask`, `Condition`,
`OneUseActionTask`, `ActionTaskSuccessFailBackground` and the default
`ITask.Reset`). A tick is one `GetStatus` call on the root. It returns
`Success`, `Running` or `Failure`. As a side effect it moves each node's
cursor (`currentChild`), builds or drops a priority selector's cached
order (`sortedChildren`), and updates the tasks' flags and timers.

The model has two layers.

- **Value layer.**
  - `Tasks` gives each task a step function over its state: elapsed time and flags.
  - `Ordering` defines the two orders a scanning selector can use:
    - a stable sort by descending priority;
    - a shuffle driven by supplied random numbers.
  - `TreeSpec` describes a tree as a `Node` value. `TickNode` is one `GetStatus` call and `ResetNode` is one `Reset` call.
  - `TreeProps` proves what these do over one tick and over runs of ticks: resumption, reset and cycling.
- **Object layer.**
  - The task classes in `Tasks` keep the fields of the C# classes.
  - `BehaviorTree.BtNode` is one class for all node classes. Its `role` says which class a node is.
  - Each node owns its subtree exclusively. `Repr` is the subtree's footprint, so no two children share an object.
  - Every `GetStatus` and `Reset` is proved to change the subtree's state exactly as `TickNode` and `ResetNode` say.
  - So everything proved about the values holds of the objects.

Host callbacks are opaque.

- **Callbacks.** Each action a task runs and each predicate it asks is recorded as an `Event` in a ghost trace.
- **Predicate answers.** What a predicate answers during a tick is an input, `Answers`. The environment `Env` gives it per leaf. A leaf is named by its path, the child indices from the ticked node.
- **Time step.** The frame time step (`Time.deltaTime`) is the input `delta`, a real number.
- **Random numbers.** The numbers a random selector shuffles with are the input `picks`, given per selector.

## Model

| member | source | states |
|---|---|---|
| Tasks.ActionStep | ITasks.cs:28-32 | An action task reports Success and runs its action exactly once. |
| Tasks.ConditionStep | ITasks.cs:140 | A condition never reports Running. It reports Success exactly when its predicate holds, and Failure otherwise. It asks the predicate once. |
| Tasks.OneUseStep | ITasks.cs:56-75 | A timed task never reports Failure and keeps its duration. It reports Success exactly when the accumulated time exceeds the duration. Its flag is set after the call exactly when it reports Running. |
| Tasks.CompositeStep | ITasks.cs:103-127 | The composite task never reports Failure. It reports Success exactly when the success or the fail predicate holds. It is left started exactly when it reports Running. |
| Tasks.TaskReset | ITasks.cs:10 | `ITask.Reset` has an empty default body, and no task overrides it, so the task state is unchanged. |
| Tasks.TaskStep | BehaviorTreeNodes.cs:198 | A leaf passes GetStatus to its task. The call never changes which task it is, or its duration, and only a condition can report Failure. |
| Tasks.OneUseCompletes | ITasks.cs:58-65 | A timed task reports Success exactly when the accumulated time exceeds the duration. On that call it rearms (elapsed 0, flag cleared) and runs neither action. |
| Tasks.OneUseRuns | ITasks.cs:66-74 | Otherwise it reports Running with the elapsed time at most the duration and the flag set. Its callbacks are exactly the one-use action, if the flag was clear, then the background action. |
| Tasks.CompositeStarts | ITasks.cs:105-110 | The composite task runs its start action exactly when it was not started, and before anything else. |
| Tasks.CompositeResolves | ITasks.cs:111-126 | The success predicate is asked first, right after the start action if that runs. The fail predicate is asked next, and only when success does not hold. The last callback is the action of the path taken. Each terminal path runs only its own action, clears the started flag and reports Success. Otherwise the task runs the background action, stays started and reports Running. It never reports Failure. |
| Tasks.NeverFails | ITasks.cs:56-127 | Over any run of ticks, a timed or composite task never reports Failure. |
| Tasks.OneUseOncePerActivation | ITasks.cs:58-74 | Over any run without a Success, the one-use action runs once if it had not been used and never otherwise. The background action runs on every tick. |
| Tasks.UndecidedRuns | ITasks.cs:103-127 | While neither predicate holds, the composite task reports Running on every tick and ends started. |
| Tasks.StartOncePerActivation | ITasks.cs:103-127 | While neither predicate holds, the composite task reports Running on every tick. It runs its start action exactly once per activation and its background action on every tick. |
| Tasks.CompositeRestarts | ITasks.cs:105-123 | After the composite task resolves, the next call starts a new activation and runs the start action again. |
| Tasks.TimedTaskExample | ITasks.cs:56-75 | A task of duration 2 fed the steps 0.5, 0.5, 0.5 and 0.6 reports Running three times, then Success. The one-use action runs on the first tick only, the background action on the first three. The task ends rearmed. |
| Tasks.ActionTask.GetStatus | ITasks.cs:28-32 | The method reports and records exactly what ActionStep says. |
| Tasks.Condition.GetStatus | ITasks.cs:140 | The method reports and records exactly what ConditionStep says for the predicate's answer. |
| Tasks.OneUseActionTask.constructor | ITasks.cs:47-54 | A new timed task has elapsed time 0 and its flag clear. |
| Tasks.OneUseActionTask.GetStatus | ITasks.cs:56-75 | The fields `timeElapsed` and `oneUseActionBeenUsed`, the status and the callbacks are those of OneUseStep. |
| Tasks.ActionTaskSuccessFailBackground.constructor | ITasks.cs:92-101 | A new composite task is not started. |
| Tasks.ActionTaskSuccessFailBackground.GetStatus | ITasks.cs:103-127 | The field `startActionBeenRan`, the status and the callbacks, in order, are those of CompositeStep. |
| Ordering.PriorityOrder | BehaviorTreeNodes.cs:68 | The priority order lists each child exactly once, sorted by descending priority, with ties in insertion order (LINQ's stable sort). |
| Ordering.PriorityOrderUnique | BehaviorTreeNodes.cs:68 | Any permutation that is sorted and stable in that sense is PriorityOrder, so the order is fully determined. |
| Ordering.PriorityExample | BehaviorTreeNodes.cs:68 | Children with priorities 5, 1 and 9 are scanned as 9, 5, 1. |
| Ordering.RandomOrder | BehaviorTreeNodes.cs:55 | Whatever random numbers drive it, the shuffled order lists each child exactly once. |
| Ordering.Shuffle | BehaviorTreeNodes.cs:55 | The shuffle driven by the picks has as many elements as its pool. What it holds is stated by ShuffleKeeps. |
| Ordering.ShuffleKeeps | BehaviorTreeNodes.cs:55 | A shuffle holds exactly the elements it was given, and repeats none when they are distinct. |
| Ordering.ShuffleReachesAll | BehaviorTreeNodes.cs:55 | Every rearrangement of the pool is the shuffle driven by the picks `PicksFor` computes: the shuffle rules out no order. |
| Ordering.RandomReachesAll | BehaviorTreeNodes.cs:55 | Every permutation of a random selector's children is its order for some random numbers. |
| TreeSpec.ChildOrder | BehaviorTreeNodes.cs:55-68 | The SortChildren of either selector returns a permutation of the children. |
| TreeSpec.SortOrder | BehaviorTreeNodes.cs:55-68 | Given the children's priorities, either ordering (by descending priority, or shuffled) is a permutation of the children. |
| TreeSpec.ResetNode | BehaviorTreeNodes.cs:37-41 | Reset keeps each node's class, priority and number of children. It preserves well-formedness. What it does to cursors, caches and leaves is stated by `TreeProps.ResetRearms`. |
| TreeSpec.TickNode | BehaviorTreeNodes.cs:33-183 | One GetStatus of any node keeps the tree well-formed. Every cursor stays within its children, and a cached order stays valid. The class, priority and number of children of the node are kept, and at every depth by `TreeProps.TickKeepsShape`. |
| TreeSpec.TickLeaf | BehaviorTreeNodes.cs:198 | A leaf's GetStatus keeps it a leaf with the same priority and the same task (and duration). |
| TreeSpec.TickPlain | BehaviorTreeNodes.cs:33 | A plain node's GetStatus keeps it well-formed and of the same shape; its behaviour is stated by `TreeProps.PlainTick`. |
| TreeSpec.TickRoot | BehaviorTreeNodes.cs:177-183 | The root's GetStatus keeps it well-formed and of the same shape; its behaviour is stated by `TreeProps.RootTick`. |
| TreeSpec.TickSequence | BehaviorTreeNodes.cs:139-162 | A sequence's GetStatus keeps it well-formed and of the same shape; its behaviour is stated by `TreeProps.SequenceTick`. |
| TreeSpec.TickSelector | BehaviorTreeNodes.cs:107-125 | A selector's GetStatus keeps it well-formed and of the same shape; its behaviour is stated by `TreeProps.SelectorTick`. |
| TreeSpec.TickScanning | BehaviorTreeNodes.cs:67-96 | A priority or random selector's GetStatus keeps it well-formed and of the same shape; its behaviour is stated by `TreeProps.ScanningSelectorTick`. |
| TreeSpec.Scan | BehaviorTreeNodes.cs:76-96 | The scan loop keeps the selector well-formed and of the same shape. |
| TreeSpec.ScanStep | BehaviorTreeNodes.cs:78-92 | One iteration of the scan ticks the child at the current position of the order. It then returns on Running or Success, or continues with the next position on Failure, the later children untouched. |
| TreeProps.ResetRearms | BehaviorTreeNodes.cs:37-41 | Reset puts every control node below it at cursor 0 with no cached order, whichever branch was active. No task overrides the empty `ITask.Reset` (ITasks.cs:10, BehaviorTreeNodes.cs:199), so Reset leaves every leaf's elapsed time, flags and trace unchanged. |
| TreeProps.ResetFixedPoints | BehaviorTreeNodes.cs:37-41 | A tree is unchanged by Reset exactly when it is already rearmed. |
| TreeProps.ResetIdempotent | BehaviorTreeNodes.cs:37-41 | Resetting twice is the same as resetting once, for BT_Node.Reset and for its PrioritySelector override (lines 70-74). |
| TreeProps.SequenceTick | BehaviorTreeNodes.cs:139-162 | A sequence ticks only its current child: its children after the tick are exactly those before, with the current one ticked, and its cached order is kept. On Running the cursor is unchanged. On Failure the cursor goes back to 0 with nothing reset, and the sequence fails. On Success the cursor advances, and the sequence succeeds exactly when that was the last child. Past the end it ticks no child, resets (every leaf unchanged) and succeeds. The cursor never passes the end. |
| TreeProps.SelectorTick | BehaviorTreeNodes.cs:107-125 | A selector fails exactly on a tick where its cursor is past the end, so it ticks no child on that tick, and it resets with every leaf unchanged. It succeeds exactly when the current child succeeds, and is then reset after ticking only that child. Success and Failure both rearm it. On Running its children are exactly those before with the current one ticked, its order is kept, a failing child moves the cursor on and a running one keeps it. |
| TreeProps.PlainTick | BehaviorTreeNodes.cs:33 | A plain node reports what its current child reports, keeps its cursor and order, and only that child changes. |
| TreeProps.RootTick | BehaviorTreeNodes.cs:177-183 | The root ticks its current child, ignores its status and moves the cursor to (cursor+1) mod the number of children. It always reports Running. |
| TreeProps.ScanFailsIff | BehaviorTreeNodes.cs:76-96 | The scan from position k fails exactly when every remaining child of the order fails. |
| TreeProps.ScanSettles | BehaviorTreeNodes.cs:82-95 | A Success or Failure of the scan rearms the selector. A Running one keeps its cursor and its cached order. |
| TreeProps.ScanDecider | BehaviorTreeNodes.cs:78-92 | Unless the scan fails, the first child of the order that does not fail decides its status, and the scan stops there. Every child is pinned: those from the start of the scan to the decider are ticked exactly once, and the others are untouched. After a Success all of them are then reset. |
| TreeProps.ScanDecidesHere | BehaviorTreeNodes.cs:80-88 | A child that does not fail ends the scan at its own position. It alone is ticked, and after a Success every child is reset. |
| TreeProps.DecidedSuccessSparesLater | BehaviorTreeNodes.cs:84-88 | After a deciding Success, the children later in the order were only reset: every leaf of theirs is unchanged. |
| TreeProps.ScanFailTicksAll | BehaviorTreeNodes.cs:78-95 | A failing scan ticks every child of the order exactly once, each from its state before the tick, and then resets it. |
| TreeProps.ScanningSelectorTick | BehaviorTreeNodes.cs:55-96 | Each tick scans from the top of the order. A priority selector's order is always its children by descending priority. A priority or random selector fails exactly when every child fails, and then each child has been ticked once and reset. Otherwise the first non-failing child in the order decides. The children up to it are ticked exactly once and the rest untouched; a Success then resets them all. A Running tick keeps the order cached for the next tick, while Success and Failure drop it and rearm the selector. |
| TreeProps.TickKeepsShape | BehaviorTreeNodes.cs:33-198 | No GetStatus changes the shape of the tree at any depth: every node keeps its class, priority and number of children, and every leaf keeps its task and duration. |
| TreeProps.ScanKeepsShape | BehaviorTreeNodes.cs:78-95 | The scan loop keeps the shape of the selector at every depth. |
| TreeProps.Run | BehaviorTreeNodes.cs:177-183 | Ticking the root once per frame yields one status per frame and keeps the tree well-formed and of the same class, priority and size. |
| TreeProps.RunKeepsShape | BehaviorTreeNodes.cs:33-198 | However many frames are ticked, the shape of the tree at every depth is kept. |
| TreeProps.RootCycles | BehaviorTreeNodes.cs:177-183 | Over any k ticks the root reports only Running, and its cursor has moved k places around its children. It visits them in order, forever. |
| TreeProps.SequenceOfActions | BehaviorTreeNodes.cs:139-162 | A sequence of action leaves starting at cursor c reports Running on the next N-c-1 ticks and Success on the one after. Its cursor is then left at N, and its children are still actions. |
| TreeProps.SequenceOfSuccesses | BehaviorTreeNodes.cs:139-162 | The same for any children that each succeed on their own tick: Running until the last of them succeeds, then Success, with the cursor left at N. |
| TreeProps.SequenceSucceedsAgain | BehaviorTreeNodes.cs:141-161 | Take a sequence whose children from the cursor on each succeed on their own tick. Once it has succeeded, the following tick reports Success again without ticking any child (every leaf unchanged), and rearms it. |
| TreeProps.SelectorOfFailingConditions | BehaviorTreeNodes.cs:107-125 | A selector of conditions, none of which holds, reports Running on one tick per remaining child, then Failure on the tick after, and ends rearmed. |
| TreeProps.SelectorOfFailures | BehaviorTreeNodes.cs:107-125 | The same for any children that each fail on their own tick: Running once per remaining child, then Failure, and rearmed. |
| BehaviorTree.TaskRef.GetStatus | BehaviorTreeNodes.cs:198 | A leaf's GetStatus is its task's: the status, the task's new state and its callbacks are those of TaskStep. |
| BehaviorTree.TaskRef.Reset | ITasks.cs:10 | ITask.Reset, called by BT_Leaf.Reset (BehaviorTreeNodes.cs:199), leaves the task state and its callbacks as TaskReset says: unchanged. |
| BehaviorTree.BtNode.Branch | BehaviorTreeNodes.cs:20-28 | A control node built over its children (the constructor, then AddChild for each child) starts at cursor 0 with no cached order, and owns its children's subtrees. |
| BehaviorTree.BtNode.WithTask | BehaviorTreeNodes.cs:193-196 | A leaf wraps its task and has no children. |
| BehaviorTree.BtNode.GetStatus | BehaviorTreeNodes.cs:33 | Every node's GetStatus returns the status TickNode gives and leaves the subtree in the state TickNode gives, and the subtree stays valid. |
| BehaviorTree.BtNode.TickChild | BehaviorTreeNodes.cs:33 | Ticking child i changes that child's subtree and nothing else. |
| BehaviorTree.BtNode.TreeGetStatus | BehaviorTreeNodes.cs:177-183 | BT_Tree.GetStatus changes the fields as TickNode says for the root. |
| BehaviorTree.BtNode.SequenceGetStatus | BehaviorTreeNodes.cs:139-162 | Sequence.GetStatus changes the fields as TickNode says for a sequence. |
| BehaviorTree.BtNode.SelectorGetStatus | BehaviorTreeNodes.cs:107-125 | Selector.GetStatus changes the fields as TickNode says for a selector. |
| BehaviorTree.BtNode.SetCursor | BehaviorTreeNodes.cs:119 | Moving `currentChild` within the bounds of the node's class keeps the node valid and changes only its cursor. |
| BehaviorTree.BtNode.SortChildren | BehaviorTreeNodes.cs:55-68 | Computed from the child objects' priorities by the same SortOrder as the value layer, the ordering either selector computes is a permutation of its children. |
| BehaviorTree.BtNode.SortedChildren | BehaviorTreeNodes.cs:66-67 | The cached order is returned when there is one. Otherwise it is computed, stored and returned (`??=`). |
| BehaviorTree.BtNode.PriorityGetStatus | BehaviorTreeNodes.cs:76-96 | PrioritySelector.GetStatus (inherited by RandomSelector) returns the status, and leaves the subtree in the state, that TickNode gives. |
| BehaviorTree.BtNode.ScanFrom | BehaviorTreeNodes.cs:78-95 | The foreach loop over the cached order ends in the state, and with the status, that Scan gives. Its loop invariant is the remaining scan. |
| BehaviorTree.BtNode.ScanOne | BehaviorTreeNodes.cs:80-92 | One iteration ticks the child at the current position. Running or Success (after a Reset) ends the scan as Scan says; on Failure the later children are untouched and the scan goes on from the next position. |
| BehaviorTree.BtNode.Reset | BehaviorTreeNodes.cs:37-41 | Reset leaves the subtree in the state ResetNode gives. This covers its loop over the children, the PrioritySelector override that drops the cache, and the leaf's call of its task's Reset. |
| BehaviorTree.BtNode.ResetChildren | BehaviorTreeNodes.cs:39-40 | BT_Node.Reset sets the cursor to 0 and resets each child in turn; each child ends as ResetNode gives. |
| BehaviorTree.BtNode.ResetChild | BehaviorTreeNodes.cs:40 | Resetting child i changes that child's subtree, as ResetNode says, and nothing else. |
| BehaviorTree.BtNode.DropCache | BehaviorTreeNodes.cs:73 | The PrioritySelector override clears the cached order and nothing else. |

## Behaviour of the code worth knowing

- **BT_Tree.** The doc comment of `BT_Tree` (BehaviorTreeNodes.cs:167-171) says the root moves to the next child only on Success and resets the tree when all children succeed. The code ticks the current child, ignores its status and always moves on. The model follows the code (`RootTick`, `RootCycles`).
- **Sequence.** A sequence reports Success on the tick its last child succeeds, but does not reset on that tick: its cursor stays at the number of children. The next tick ticks no child, resets and reports Success again (`SequenceSucceedsAgain`). A sequence with no children succeeds.
- **Selector.** A selector whose children all fail reports Running on the tick the last child fails. It reports Failure only on the following tick, when it ticks nothing (`SelectorTick`, `SelectorOfFailingConditions`). A selector with no children fails.
- **Sequence on Failure.** A sequence that fails only sends its cursor back to 0: the descendants are not reset, because the `Reset()` call there is commented out.
- **Priority selector cache.** The cached order is kept until a Reset. A random selector therefore reuses one shuffle until it succeeds or fails. Each tick still rescans that order from its first element.

## Left out

- `Example.cs`: application wiring with placeholder builders; it holds no evaluator logic.
- **`ShuffleList`.** It is not shown and its randomness cannot be verified. A random selector's order is a shuffle driven by the supplied numbers `picks`. Every permutation is reachable (`ShuffleReachesAll`), but uniformity is not modelled.
- **`Time.deltaTime` and float.** The time step is an input, and time is a real number. Single-precision rounding and accumulation error are not modelled.
- **Host callbacks.** Callbacks are opaque. Their effects are only recorded as events, and exceptions they could throw are not modelled.
- **Diagnostics and concurrency.** The `name` field and the commented-out `Debug.Log` lines are diagnostic only. The evaluator is single-threaded, so concurrency is not modelled.
- **`AddChild`.** Children are fixed when a control node is built (`BtNode.Branch`), so adding a child to a node that has already been ticked is not modelled.
- **Empty `BT_Node` or `BT_Tree`.** `BtNode.Branch` requires at least one child for a plain `BT_Node` or a `BT_Tree`. Their GetStatus indexes the children unchecked (and the root divides by their number), so the code would throw on an empty one.
- **Cache as indices.** `sortedChildren` holds child references in the code and child indices in the model. With the children fixed, the two carry the same information.
- **Dispatch.** One class, `BtNode`, stands for the whole node hierarchy, and the `TaskRef` datatype stands for the `ITask` interface. Virtual dispatch is the match on `role` and on `TaskRef`.
