# amp-common: verified models

This project models the parts of amp-common in which most can go wrong, and proves what they do. Each module
follows one component of the Go library and takes its form: objects that are updated in place are classes whose
methods state their whole new state, loops are loops, and concurrent components are state machines over their
atomic steps.

- **Red-black map and set** (`RedBlackShape`, `RedBlackState`, `RedBlackPicture`, `RedBlackTree`, `RedBlackMap`,
  `RedBlackSet`, `RedBlackExamples`). Nodes with child and parent pointers, rotations, and the two fixup loops.
  The heap is tied to a state with one cell for each in-order position, about which the cases are proved. Insertion
  is sound in every reachable state. Removal is modelled as written: `fixupDelete` gets no node when the emptied
  place has no child, so a black leaf is taken without restoring the black counts, and its loop does not end once a
  sibling is missing. Both are characterised exactly, over whole runs, and a run from the empty map shows each.
- **Priority channel** (`PriorityOrder`, `PriorityHeap`, `PriorityPump`). The array heap with a tie-break by
  submission, and the goroutine around it as a machine over its select.
- **Retry budget** (`RateLog`, `RateWindow`, `MovingRate`, `RetryBudget`). The bucketed window against a full event
  log, and what the budget then guarantees about true numbers of calls in any run. Times are integer nanoseconds,
  clock readings are inputs, rates real.
- **Futures and promises** (`FutureCallbacks`, `FuturePromise`). Registrations, competing fulfilments and the
  starting of callbacks as steps in any interleaving.
- **Object pool** (`PoolObjects`, `ObjectPool`). The event loop with the answers of the outside world as inputs, and
  the shutdown. A closed channel stays ready, so the loop counts receives, not channels.
- **JSON paths** (`JsonPathSyntax`, `JsonPathErrors`, `JsonHeap`, `JsonLookup`, `JsonReplies`, `JsonPath`,
  `JsonRemoval`). The path syntax, lookups with wildcards, and adding and removing a path in nested maps that are
  updated in place.
- **DNS** (`DnsRecords`, `CnameWalk`, `CnameChain`, `Consensus`). Following aliases (section 3.6.2 of RFC 1034) and
  agreeing on an answer.
- **Ordered hash map** (`OrderedEntries`, `OrderedHashMap`). A slice of keys beside a table from hashes to entries,
  against an association list in order of insertion.

Where the code and its comments differ, the model follows the code:

- The comments say that deletion restores the red-black properties. Removing a black childless key below the root
  breaks equal black counts (`RedBlackExamples.FourKeysLoseBalance`), and on a tree whose counts are unequal a later
  removal may never return (`RedBlackExamples.RunThatSpins`). `RedBlackTree.TreeMap.Remove` says exactly when either
  happens.
- A promise failed with a nil error is fulfilled successfully with the zero value (`FuturePromise.Future.Failure`).
- A null in mid-path is documented as an error that names the failing segment. Behind a wildcard it may name another
  segment (`JsonLookup.WrongKeyNamed`), or the call panics (`JsonLookup.NullBehindWildcard`). Which paths are safe on
  every document can be told from the path (`JsonLookup.HonestIsRight`, `JsonLookup.DishonestIsWrong`).
- Removing a path is documented to remove the parents it empties. The key of such a parent is looked up a second time,
  and if two keys match it up to case the second lookup may find the other one, which is then deleted with all that is
  in it (`JsonRemoval.RemovedMeans`, `JsonRemoval.UnrelatedKeyIsLost`).

Removing a path cleans up empty parents, so it undoes adding the path only if the last map that was there before is the
root or was not empty (`JsonRemoval.RemovalUndoesAdding`).

## Model

| member | source | states |
|---|---|---|
| `RedBlackShape.HeightIsLogarithmic` | maps/red_black_tree.go:281-322 | a red-black tree of n entries has height at most 2·log2(n + 1), stated as 2^height <= (n + 1)^2 |
| `RedBlackShape.SizeFromBlackHeight` | maps/red_black_tree.go:682-731 | a tree of black height b with equal black counts on every path has at least 2^b - 1 entries |
| `RedBlackShape.HeightFromBlackHeight` | maps/red_black_tree.go:682-731 | without a red-red edge no path is longer than twice the black height, plus one for a red top |
| `RedBlackShape.SizeIsWalkLength` | maps/red_black_tree.go:393-425 | counting the nodes gives the length of the in-order walk |
| `RedBlackShape.AsMapInsert` | maps/red_black_tree.go:281-322 | inserting an entry for a new key anywhere in a walk with distinct keys adds that binding to the map |
| `RedBlackShape.AsMapUpdate` | maps/red_black_tree.go:281-322 | replacing the value of one entry overrides that binding and no other |
| `RedBlackShape.AsMapDelete` | maps/red_black_tree.go:327-377 | cutting one entry out of the walk removes that binding and no other |
| `RedBlackState.State.RotatedLinked` | maps/red_black_tree.go:179-251 | a rotation of well-linked cells, in either direction, leaves them well linked in the same in-order positions |
| `RedBlackState.State.RelinkedIsRotated` | maps/red_black_tree.go:179-251 | the pointer assignments of a rotation, in the order of the code, amount to the rotation |
| `RedBlackState.State.RecoloredProgress` | maps/red_black_tree.go:694-698 | insertion with a red uncle: recolouring keeps the insertion invariant, moves the violation two levels up and lowers the rank |
| `RedBlackState.State.LiftedProgress` | maps/red_black_tree.go:705-707 | insertion with a black uncle and an outer grandchild: one recolouring and rotation mends the tree |
| `RedBlackState.State.InnerRotatedProgress` | maps/red_black_tree.go:700-707 | insertion with a black uncle and an inner grandchild: the first rotation makes it the outer case, and together they mend the tree |
| `RedBlackState.State.SiblingLiftedProgress` | maps/red_black_tree.go:760-765 | deletion with a red sibling: after the rotation either the child is mended next or the loop is stuck exactly if it was going to be |
| `RedBlackState.State.DeferredProgress` | maps/red_black_tree.go:769-771 | deletion with a black sibling and no red nephew: painting the sibling red passes the missing black to the parent |
| `RedBlackState.State.SettledProgress` | maps/red_black_tree.go:779-785 | deletion with a red outer nephew: one rotation settles the missing black and ends the loop |
| `RedBlackState.State.InnerLifted` | maps/red_black_tree.go:772-785 | deletion with only the inner nephew red: rotating the sibling first makes it the outer case |
| `RedBlackState.State.SpinsDeferred` | maps/red_black_tree.go:769-771 | whether the deletion loop never ends is the same before and after passing the missing black upwards |
| `RedBlackState.State.SpinsLifted` | maps/red_black_tree.go:760-765 | whether the deletion loop never ends is the same before and after rotating a red sibling away |
| `RedBlackState.State.BlackenedOk` | maps/red_black_tree.go:821 | painting the loop's last node black removes the last violation |
| `RedBlackState.State.InsertedOk` | maps/red_black_tree.go:281-322 | hanging a red leaf into a red-black tree violates at most the no-red-red rule at its parent |
| `RedBlackState.State.RemovalLeaves` | maps/red_black_tree.go:327-377 | the positions, colours and black counts a removal leaves behind, before fixupDelete runs |
| `RedBlackState.State.RemovalFound` | maps/red_black_tree.go:343-370 | the node that leaves its place is the removed key's own, or its successor's when it has two children |
| `RedBlackTree.TreeMap.RotateLeft` | maps/red_black_tree.go:221-251 | in place: the new state is the old one rotated; a missing right child changes nothing |
| `RedBlackTree.TreeMap.RotateRight` | maps/red_black_tree.go:179-209 | in place: the new state is the old one rotated; a missing left child changes nothing |
| `RedBlackTree.TreeMap.InternalLookup` | maps/red_black_tree.go:124-137 | the recursive descent finds the key's node exactly if the key is in the tree, and else the only place where it can hang |
| `RedBlackTree.TreeMap.GetNode` | maps/red_black_tree.go:141-167 | the node for a key, found through the parent and the direction |
| `RedBlackTree.TreeMap.PutStep` | maps/red_black_tree.go:682-731 | one pass of the insertion loop keeps its invariant and lowers its rank |
| `RedBlackTree.TreeMap.FixupPut` | maps/red_black_tree.go:682-731 | ends, with a black root and no red-red edge; black counts are equal again if only the new leaf was open |
| `RedBlackTree.TreeMap.Add` | maps/red_black_tree.go:281-322 | keeps the search tree, black root and no red-red edge in every reachable state; the contents are the old map with the binding; equal black counts are kept |
| `RedBlackTree.TreeMap.Transplant` | maps/red_black_tree.go:633-646 | one subtree takes the place of another in the parent and in its own parent pointer |
| `RedBlackTree.TreeMap.GetMinimum` | maps/red_black_tree.go:827-835 | the leftmost node below a node, which is the next one in order |
| `RedBlackTree.TreeMap.DeleteStep` | maps/red_black_tree.go:746-822 | one pass of the deletion loop makes progress, or changes nothing at all and is stuck for ever; then black counts were unequal before |
| `RedBlackTree.TreeMap.FixupDelete` | maps/red_black_tree.go:746-822 | never ends exactly when Spins holds; if it ends there is no red-red edge, and with equal black counts but for x it ends with equal ones |
| `RedBlackTree.TreeMap.RemoveNode` | maps/red_black_tree.go:343-370 | splices the node out: the other nodes keep their order and are linked as before around the gap; says exactly when the fixup never ends, and that a node without children, or a red one with a single child, goes without any other change |
| `RedBlackTree.TreeMap.Remove` | maps/red_black_tree.go:327-377 | deletes exactly the key; never returns exactly when RemoveSpins holds; keeps the search tree, black root and no red-red edge; from equal black counts it returns, and they stay equal if and only if it does not empty the place of a black childless node below the root; a node without children, or a red one with a single child, goes without any other change |
| `RedBlackTree.TreeMap.EmptiesReadOff` | maps/red_black_tree.go:327-377 | whether a removal empties the place of a black leaf can be read off the tree beforehand: search the key, go to the successor if it has two children |
| `RedBlackTree.TreeMap.Clear` | maps/red_black_tree.go:380-382 | the empty map |
| `RedBlackTree.TreeMap.Get` | maps/red_black_tree.go:255-262 | the binding of the key, if there is one |
| `RedBlackTree.TreeMap.Contains` | maps/red_black_tree.go:385-389 | membership in the contents |
| `RedBlackTree.TreeMap.ValidShape` | maps/red_black_tree.go:281-377 | in every valid state the root is black and no red node has a red child; with equal black counts the tree is red-black and its height logarithmic in the number of bindings |
| `RedBlackTree.TreeMap.ParentsConsistent` | maps/red_black_tree.go:281-377 | children and parents point at each other, smaller keys lie left and larger ones right, and only the root has no parent |
| `RedBlackTree.TreeMap.WalkIsEntries` | maps/red_black_tree.go:429-452 | the in-order walk of the tree meets every entry once, in strictly ascending order |
| `RedBlackTree.TreeMap.Size` | maps/red_black_tree.go:393-425 | the number of bindings, counted by the visitor |
| `RedBlackMap.Visit` | maps/red_black_tree.go:429-443 | the visitor yields a subtree's entries in order until the consumer has had enough, and reports whether it wanted all |
| `RedBlackMap.VisitAround` | maps/red_black_tree.go:429-443 | what a consumer takes below a node, and whether it wanted all, is settled by the left subtree, then the node, then the right subtree |
| `RedBlackMap.TakenAround` | maps/red_black_tree.go:429-443 | what a consumer takes of a left subtree, a node and a right subtree is what it takes of the concatenation |
| `RedBlackMap.TakenIs` | maps/red_black_tree.go:429-443 | a consumer takes the shortest non-empty prefix of the entries after which it wants no more, or all of them |
| `RedBlackMap.Seq` | maps/red_black_tree.go:447-453 | ranging to the end yields the entries in ascending order of their keys |
| `RedBlackMap.Union` | maps/red_black_tree.go:457-475 | the union of the bindings, the other map's values winning, in a new red-black tree |
| `RedBlackMap.Intersection` | maps/red_black_tree.go:479-497 | the bindings whose keys the other map has too, with this map's values |
| `RedBlackMap.Clone` | maps/red_black_tree.go:500-508 | an equal map in a new tree |
| `RedBlackMap.Filter` | maps/red_black_tree.go:548-558 | the bindings that pass the test |
| `RedBlackMap.KeptIsRestricted` | maps/red_black_tree.go:548-558 | keeping the entries that pass a test restricts the map to the bindings that pass it |
| `RedBlackMap.Step` | maps/red_black_tree.go:281-382 | one operation does to the tree what it does to a finite map; a balanced tree stays balanced if and only if the operation does not take a black leaf |
| `RedBlackMap.Run` | maps/red_black_tree.go:281-382 | any run of Add, Remove and Clear on a new map, up to a removal that never returns: the shape after each operation has the bindings the finite map has, and a balanced shape is followed by a balanced one if and only if the operation takes no black leaf; a removal that never returns meets an unbalanced tree; so without a black leaf taken every operation returns and the tree stays red-black |
| `RedBlackMap.StaysBalanced` | maps/red_black_tree.go:281-382 | in such a run every shape is balanced as long as no operation has taken a black leaf |
| `RedBlackExamples.FourKeysLoseBalance` | maps/red_black_tree.go:746-749 | a concrete run, Add 1 to 4 and one Remove, after which black counts are unequal; the run is stated through the operations on record |
| `RedBlackExamples.FourEntries` | maps/red_black_tree.go:682-731 | every red-black tree of four entries has two black children of the root, one of them childless |
| `RedBlackExamples.RunThatSpins` | maps/red_black_tree.go:746-822 | a run from the empty map, Add 1 to 16 and then removals, after which the tree is as valid as ever and the removal of one more key never returns |
| `RedBlackExamples.LoneChainSpins` | maps/red_black_tree.go:746-822 | removing a black node whose only child is black, and whose sibling is missing, never returns |
| `RedBlackExamples.SixteenAreDeep` | maps/red_black_tree.go:682-731 | every red-black tree of sixteen entries has black height three or more |
| `RedBlackSet.Add` | set/red_black_tree.go:149-176 | adds exactly the element and keeps balance |
| `RedBlackSet.Remove` | set/red_black_tree.go:189-239 | removes exactly the element, with the same exact conditions for ending and for balance as the map |
| `RedBlackSet.Entries` | set/red_black_tree.go:267-281 | every element once, in strictly ascending order |
| `RedBlackSet.Union` | set/red_black_tree.go:320-338 | the union of the elements, in a red-black tree |
| `RedBlackSet.Intersection` | set/red_black_tree.go:342-360 | the common elements |
| `RedBlackSet.Filter` | set/red_black_tree.go:754-764 | the elements that pass the test |
| `PriorityOrder.BeforeIsTotal` | channels/priority.go:131-143 | for a strict weak order, priority and then submission number order any two entries strictly |
| `PriorityOrder.StableSortOrdered` | channels/priority.go:131-143 | the reference sort puts entries in order of priority, ties in order of submission |
| `PriorityOrder.StableSortKeeps` | channels/priority.go:131-143 | the reference sort keeps the entries, each as often as before |
| `PriorityOrder.OrderIsUnique` | channels/priority.go:131-143 | two ordered arrangements of the same entries are the same |
| `PriorityOrder.InOrderMeans` | channels/priority.go:131-143 | delivery order in terms of less and the submission numbers |
| `PriorityHeap.UpStep` | channels/priority.go:94-97 | one sift-up exchange keeps the heap but for the moved entry |
| `PriorityHeap.DownStep` | channels/priority.go:98-100 | one sift-down exchange keeps the heap but for the moved entry |
| `PriorityHeap.RootIsLeast` | channels/priority.go:98-100 | no entry of a heap comes before the one at the root |
| `PriorityHeap.HeapPush` | channels/priority.go:94-97 | pushing keeps the heap and adds exactly the entry |
| `PriorityHeap.HeapPop` | channels/priority.go:98-100 | popping returns the root and keeps a heap of exactly the others |
| `PriorityHeap.Queue.Swap` | channels/priority.go:145-147 | exchanges two places |
| `PriorityHeap.Queue.Push` | channels/priority.go:149-152 | appends |
| `PriorityHeap.Queue.Pop` | channels/priority.go:154-162 | takes off the last entry |
| `PriorityPump.Pump.Accept` | channels/priority.go:87-97 | a value taken from the input joins the buffer under the next number; the invariant holds: heap, received = delivered + buffered, capacity, first in first out among equals |
| `PriorityPump.Pump.Deliver` | channels/priority.go:98-100 | the delivered entry is the one the heap loses, and comes before everything that stays |
| `PriorityPump.Pump.ClosedOnlyDelivers` | channels/priority.go:72-83 | with the input closed and no cancellation the select can only deliver |
| `PriorityPump.Pump.Drain` | channels/priority.go:59-102 | after the input has closed the remaining deliveries are the buffer in order, and then the output closes |
| `PriorityPump.Pump.Turn` | channels/priority.go:59-102 | one turn of the loop for any event, ready or not, in the pump's own fields: a value is taken exactly if the input is open and there is room, a size of zero or less giving room for any number; the input is seen to close only while there is room; a taker gets an entry exactly if one waits, and no waiting entry is less, or equal and submitted earlier; the output closes exactly when the pump is drained or cancelled |
| `PriorityPump.Pump.Run` | channels/priority.go:59-102 | every step of a run has the effect of its event on the fields; without a size limit and cancellation a run takes exactly the values sent before the input closes |
| `PriorityPump.TakesAllSent` | channels/priority.go:72-83 | a pump without a size limit takes everything that is sent, whatever is delivered in between |
| `PriorityPump.DrainIsStableSort` | channels/priority.go:59-102 | what a drain delivers is the stable sort of the buffer by priority |
| `PriorityPump.RootComesFirst` | channels/priority.go:62-70 | the top entry comes before every other one that waits |
| `PriorityPump.DeliverKeepsTurns` | channels/priority.go:131-143 | delivering the least entry keeps equal priorities in order of submission over the whole run |
| `PriorityPump.AcceptKeepsTurns` | channels/priority.go:87-97 | a new submission overtakes nothing of its priority |
| `RateLog.WindowCovers` | retry/budget.go:197-220 | the window of N buckets' length covers the newest N buckets and at most the one before |
| `RateWindow.RoundDownIsFloor` | retry/budget.go:134-141 | rounding to the nearest multiple and stepping back when that went too far is rounding down |
| `RateWindow.Window.EstimateExact` | retry/budget.go:197-206 | before the window is full the count is the true number of events in it, whatever the signs of the counts |
| `RateWindow.Window.EstimateClose` | retry/budget.go:208-219 | in a full window of non-negative counts the estimate differs from the true number by at most the oldest bucket |
| `RateWindow.Window.SecondsCovered` | retry/budget.go:225-242 | the window is full exactly from N bucket boundaries after the first use on; it covers the time since the bucket of the first use began before, and N buckets' length afterwards |
| `RateWindow.OpenFractionIs` | retry/budget.go:208-211 | the fraction of the oldest bucket that is counted, times the bucket's length, is the time from the last use to the end of its bucket |
| `RateWindow.Window.EstimateIs` | retry/budget.go:208-219 | a full window's count is that of the newest N buckets, and of the oldest one in this proportion |
| `MovingRate.BucketsBetween` | retry/budget.go:281-291 | the number of buckets to shift is the number of bucket boundaries crossed, and positive whenever a boundary was crossed |
| `MovingRate.ShiftAgrees` | retry/budget.go:247-264 | shifting keeps the buckets in agreement with the event log, however far the jump |
| `MovingRate.AddAgrees` | retry/budget.go:171-178 | counting in the last bucket records the event in its time bucket |
| `MovingRate.MovingRate.BucketsHold` | retry/budget.go:197-220 | in every valid state the buckets add up to what the log says of the window: all events until it is full, then the oldest bucket and the newer ones |
| `MovingRate.MovingRate.Shift` | retry/budget.go:247-264 | opens empty buckets at the end and drops what exceeds BucketNum + 1 |
| `MovingRate.MovingRate.Forward` | retry/budget.go:269-294 | keeps the agreement of every bucket with the log and the length of the window, which began at the first use; the panic cannot be reached |
| `MovingRate.MovingRate.Add` | retry/budget.go:171-178 | accepts exactly the events that are not older than the last update, whatever their number |
| `MovingRate.MovingRate.Count` | retry/budget.go:197-220 | the loops over the buckets compute the estimate that the full log defines |
| `MovingRate.MovingRate.Seconds` | retry/budget.go:225-242 | the time since the bucket of the first use began, or the whole window once it is full |
| `MovingRate.MovingRate.Rate` | retry/budget.go:182-190 | the rate that the log up to now, the time of first use and t define; NaN, and no change, for a time before the last update |
| `MovingRate.RunCalls` | retry/budget.go:171-190 | any run of Add and Rate on a new window, whatever the clock does: the window's log is exactly the events not overtaken by a later reading, it began at the first call, and every bucket agrees with the log |
| `MovingRate.AcceptedNext` | retry/budget.go:171-178 | the event of a call of Add enters the log exactly if no earlier call read a later time, and behind the others |
| `RetryBudget.RatioBound` | retry/budget.go:83-86 | what an accepted ratio of two rates says of the two counts and times, quotients by zero included |
| `RetryBudget.ExhaustedExactly` | retry/budget.go:83-86 | the comparison of the quotients, infinities and NaN included, as a condition on the counts and times without divisions |
| `RetryBudget.RefusalInNumbers` | retry/budget.go:80-86 | a retry is refused exactly if the estimated initial calls exceed the threshold times the seconds covered and the estimated retries exceed the ratio of the initial calls, the quotients by zero case by case |
| `RetryBudget.AdmittedWithinRatio` | retry/budget.go:80-86 | a retry admitted above the rate threshold: over the time that each window covers, full or not, true retries stay within the ratio of true initial calls, up to the oldest bucket of either |
| `RetryBudget.FullWindowsRatio` | retry/budget.go:80-86 | with both windows full this is the ratio of the counts themselves |
| `RetryBudget.WindowsHold` | retry/budget.go:54-91 | in any run with a clock that does not run backwards the two windows hold all initial calls and all admitted retries, and nothing else |
| `RetryBudget.EveryRetryWithinRatio` | retry/budget.go:54-91 | over such a run, in the counts and covered seconds of all initial calls and of all retries admitted before: a retry is admitted if the initial calls do not exceed the threshold, and otherwise if and only if the retries do not exceed the ratio of the initial calls, quotients by zero included; above the threshold each admitted one keeps the true retries within the ratio |
| `RetryBudget.Budget.SendOK` | retry/budget.go:54-91 | initial calls, and retries at a time before the last reading of either window, are always admitted; any other retry is admitted if and only if the estimated counts and covered seconds at that moment allow it; what the two windows count afterwards; an admitted retry is within the ratio |
| `RetryBudget.RunCalls` | retry/budget.go:54-91 | any run of calls on a new budget, whatever the clock does, gives these answers, and yes to every initial call |
| `FutureCallbacks.ListedOnce` | future/promise.go:71-123 | a callback is on the list of its kind once, and on no other |
| `FutureCallbacks.PlanOnce` | future/promise.go:71-123 | a fulfilment's calls reach every OnResult callback, and every OnSuccess or else OnError callback, exactly once, and no other |
| `FutureCallbacks.PlanGives` | future/promise.go:138-207 | an OnResult callback is given the whole outcome, an OnSuccess one its value, an OnError one its error, each with its own context |
| `FutureCallbacks.PlanInOrder` | future/promise.go:110-123 | the calls' order: OnResult first; in each kind those without a context before those with one; among these in order of registration |
| `FuturePromise.Future.OnResult` | future/future.go:346-365 | ignores nil; registers, and when complete starts the callback at once with the whole outcome; also with a context |
| `FuturePromise.Future.OnSuccess` | future/future.go:456-478 | ignores nil; registers, and when complete without an error starts the callback at once with the value; also with a context |
| `FuturePromise.Future.OnError` | future/future.go:572-594 | ignores nil; registers, and when complete with an error starts the callback at once with the error; also with a context |
| `FuturePromise.Future.Answer` | future/future.go:346-365 | a registration after completion: what is started, by the kind of the callback and the error of the outcome |
| `FuturePromise.Future.Enter` | future/promise.go:78-79 | only the first fulfilment gets past the once |
| `FuturePromise.Future.Publish` | future/promise.go:81-108 | collects and clears all lists, stores the result and opens it to waiters; what is left to start is the plan for all registrations so far |
| `FuturePromise.Future.StartNext` | future/promise.go:138-207 | the loops over the collected callbacks start the next one of the plan |
| `FuturePromise.Future.Success` | future/promise.go:222-227 | claims the value if nothing was claimed before |
| `FuturePromise.Future.Failure` | future/promise.go:251-258 | claims the zero value with the error; with a nil error that is a success |
| `FuturePromise.Future.Complete` | future/promise.go:287-293 | a failure if there is an error, which drops the value, else a success |
| `FuturePromise.Future.Await` | future/future.go:247-254 | blocks until complete and then gives the winner's outcome |
| `FuturePromise.Future.NeverTwice` | future/promise.go:71-123 | in every interleaving, no callback has been started twice |
| `FuturePromise.Future.ExactlyOnce` | future/promise.go:71-123 | once the winning fulfilment has finished, each registered callback has been started exactly once if it is an OnResult one, an OnSuccess one and there is no error, or an OnError one and there is an error, and not at all otherwise |
| `FuturePromise.Future.RightPayload` | future/promise.go:138-207 | every started callback got its own context, and by its kind the whole outcome of the winner, its value if there is no error, or its error |
| `FuturePromise.Future.Take` | future/promise.go:71-123 | one step of one goroutine has exactly its effect: a registration, a fulfilment that enters the once or not, the section under the mutex, the start of one callback |
| `FuturePromise.Future.Run` | future/promise.go:71-123 | in any interleaving of registrations and competing fulfilments each step has its effect; the outcome is the first one's and never changes, and what was started stays started |
| `FuturePromise.FirstOutcomeIs` | future/promise.go:71-123 | the first call of Success, Failure or Complete decides the outcome, whatever follows |
| `FuturePromise.ReadyOnceLocked` | future/promise.go:78-108 | once a fulfilment has entered the once, the section under the mutex makes the result ready for good, whatever runs in between and after |
| `FuturePromise.Future.Finish` | future/promise.go:71-123 | a fulfilment that entered the once and runs to its end serves every callback that its outcome concerns once, whatever was registered before |
| `FuturePromise.Promise.Cancel` | future/promise.go:43-50 | however often it is called, every cancel function runs once, in order |
| `PoolObjects.KeptSplits` | pool/pool.go:298-359 | a CloseIdle keeps exactly the objects it need not close and those whose Close fails |
| `PoolObjects.KeptMeans` | pool/pool.go:298-359 | a CloseIdle leaves an object idle if and only if it is valid and younger than the limit at its clock reading, or its Close fails |
| `PoolObjects.KeptInOrder` | pool/pool.go:298-359 | what stays idle stays in its order |
| `PoolObjects.AttemptedMeans` | pool/pool.go:298-359 | Close is called on an object if and only if it is as old as the limit or not valid |
| `PoolObjects.SweepCounts` | pool/pool.go:298-359 | the failed and the successful Close calls add up to those made |
| `PoolObjects.ServeOwned` | pool/pool.go:219-269 | a Get keeps every object in one place and hands out one that is neither borrowed nor closed |
| `PoolObjects.ServesFirstValid` | pool/pool.go:219-269 | a Get answers with the first valid idle object, discards exactly those before it, having called Close on each, and makes one only if none is valid |
| `PoolObjects.SweepOwned` | pool/pool.go:298-359 | a CloseIdle moves exactly the closed objects from idle to discarded |
| `PoolObjects.DiscardAllOwned` | pool/pool.go:442-453 | the calls after the loop dispose of every idle object |
| `PoolObjects.UnclosedAre` | pool/pool.go:442-453 | the objects reported after the loop are the idle ones whose Close failed, each once |
| `PoolObjects.UnclosedInOrder` | pool/pool.go:442-453 | and in the order in which they lay idle |
| `ObjectPool.Pool.HandleGet` | pool/pool.go:219-269 | the loop over idle objects serves as specified and counts one more outstanding exactly if an object was handed out |
| `ObjectPool.Pool.HandlePut` | pool/pool.go:276-290 | the returned object goes behind the idle ones, and is no longer outstanding |
| `ObjectPool.Pool.HandleCloseIdle` | pool/pool.go:298-359 | successes and kept objects add up to the previous size, successes and errors to the Close calls made; who is closed, discarded and tried |
| `ObjectPool.Pool.Turn` | pool/pool.go:395-440 | one turn of the loop, by event and in the pool's objects: a Get gets the first valid idle object, else the one made, and the pool loses it and those before it; a Put goes to the end; a CloseIdle leaves the objects that are valid and young or whose Close fails; a tick shuffles; the loop is left exactly when three receives from closed channels have been counted and nothing is borrowed |
| `ObjectPool.Pool.Take` | pool/pool.go:374-462 | the same for any step of the loop or of Close, with the conditions under which it can happen; a step that cannot does nothing |
| `ObjectPool.AfterAnswered` | pool/pool.go:374-462 | the effect of a step, as a function of how things stood before, says what the step is answered and what stays in the pool |
| `ObjectPool.EachStep` | pool/pool.go:374-462 | in a run each step has its effect on what the steps before it have left |
| `ObjectPool.Pool.Leave` | pool/pool.go:442-462 | calls Close on every idle object, sends on exactly those whose Close failed, in their order, and releases the wait group if that has not been done |
| `ObjectPool.Pool.CloseStep` | pool/pool.go:619-633 | the steps of Close, each closing one channel, with the wait between closing getCh and the other channels |
| `ObjectPool.Pool.Run` | pool/pool.go:374-462 | every step of every run is answered as stated for Take; each object made is idle, borrowed or discarded, in one place once; outstanding counts the borrowed; nothing is handed out that is borrowed, or whose Close succeeded at any moment before, and nothing at all after Close has begun; the wait group is released at most once and only with nothing borrowed |
| `ObjectPool.Pool.Shutdown` | pool/pool.go:374-462 | after Close has begun, returning what is borrowed ends the loop however often a closed channel was received from, and every object ever made has been disposed of |
| `ObjectPool.Pool.ClosedForGood` | pool/pool.go:219-359 | a closed object is neither idle nor borrowed |
| `ObjectPool.Pool.NothingLeaks` | pool/pool.go:442-462 | when the loop has ended nothing is borrowed, Close was called on every object ever made, and the wait group is at zero |
| `JsonPathSyntax.ParsePath` | jsonpath/jsonpath.go:77-152 | the parser, check by check: empty, prefix, empty segment with its number, no segments, reconstruction |
| `JsonPathSyntax.NewPath` | jsonpath/jsonpath.go:272-285 | prints segments, the wildcard without quotes |
| `JsonPathSyntax.ToNestedPath` | jsonpath/jsonpath.go:601-615 | prints keys in quotes; no keys give the empty string |
| `JsonPathSyntax.ParsesWhatPrints` | jsonpath/jsonpath.go:77-152 | a path parses to given segments if and only if they can be quoted, there is one at least, and the path is what they print as |
| `JsonPathSyntax.PrintedInjective` | jsonpath/jsonpath.go:272-285 | different segments print as different paths |
| `JsonPathSyntax.ScanBrackets` | jsonpath/jsonpath.go:113-143 | the leftmost scan of printed segments finds them again |
| `JsonPathSyntax.NoEmptySegment` | jsonpath/jsonpath.go:86-111 | a printed path contains no empty segment |
| `JsonPathSyntax.NestedRoundTrip` | jsonpath/jsonpath.go:601-615 | keys come back from ToNestedPath and ParsePath if and only if there is one, none is empty or has a quote, and none is the wildcard |
| `JsonPathErrors.ParseErrors` | jsonpath/jsonpath.go:77-152 | each error of the parser, and success, is characterised by the characters of the path |
| `JsonPathErrors.EmptySegmentNumber` | jsonpath/jsonpath.go:86-111 | an empty segment is reported under the number of opening brackets before the first one |
| `JsonPathErrors.OnePath` | jsonpath/jsonpath.go:272-285 | the notation, on one path with and without the wildcard |
| `JsonHeap.AddedIsFollowed` | jsonpath/jsonpath.go:329-369 | following the path just added leads to the value |
| `JsonHeap.DivergingUnaffected` | jsonpath/jsonpath.go:329-369 | every path that parts from the added one leads where it led before |
| `JsonHeap.PathUnique` | jsonpath/jsonpath.go:329-369 | in a tree of maps only one path leads to a map |
| `JsonHeap.ChainDistinct` | jsonpath/jsonpath.go:345-362 | the maps on a path of a tree of maps are all different |
| `JsonHeap.BlockedExactly` | jsonpath/jsonpath.go:345-362 | adding is blocked if and only if some key before the last leads to a value that is not a map, which is then the key named in the error |
| `JsonLookup.WholeGetIsDirect` | jsonpath/jsonpath.go:178-267 | printing and parsing the rest of the path after each wildcard equals direct recursion on the segments, but for the report of a null in mid-path |
| `JsonLookup.RightExactly` | jsonpath/jsonpath.go:255-261 | they are equal on a document if and only if, should a null stop the lookup at segment p, the position the code takes the key from is in range and has the key of segment p |
| `JsonLookup.HonestIsRight` | jsonpath/jsonpath.go:255-261 | a condition on the path alone under which they are equal on every document |
| `JsonLookup.WithoutWildcards` | jsonpath/jsonpath.go:255-261 | paths without wildcards meet it |
| `JsonLookup.DishonestIsWrong` | jsonpath/jsonpath.go:255-261 | for every other path there is a document on which the wrong key is named or the lookup panics; the same for panics alone |
| `JsonLookup.PanicFreeNeverPanics` | jsonpath/jsonpath.go:255-261 | a condition on the path alone under which the lookup panics on no document |
| `JsonLookup.PanicsExactly` | jsonpath/jsonpath.go:255-261 | the lookup panics if and only if it meets a null in mid-path at a position that exceeds the inner part of the path |
| `JsonLookup.NullBehindWildcard` | jsonpath/jsonpath.go:255-261 | a concrete document and path on which it panics |
| `JsonLookup.WrongKeyNamed` | jsonpath/jsonpath.go:255-261 | a concrete document and path on which another segment's key is named, without a panic |
| `JsonLookup.GetFollows` | jsonpath/jsonpath.go:231-266 | a path without wildcards that is there is found, whatever keys differ only by case |
| `JsonReplies.DirectDenotes` | jsonpath/jsonpath.go:184-267 | direct recursion succeeds with a value if and only if the path denotes it, where a wildcard denotes an array of as many values as there are items, each denoted from the item at its place |
| `JsonReplies.WildcardItems` | jsonpath/jsonpath.go:192-230 | behind a wildcard: success if and only if every item is a map from which the rest succeeds, the reply being these values in the items' order; otherwise the first item that is no map, or whose lookup fails, decides the error |
| `JsonReplies.GetDenotes` | jsonpath/jsonpath.go:178-267 | GetValue succeeds with a value if and only if the path denotes it |
| `JsonReplies.PlainLookup` | jsonpath/jsonpath.go:231-266 | without wildcards the lookup goes as far as the keys lead and reports the position and key of the first segment it cannot look up: in a null, in another value that is not a map, or in a map without the key |
| `JsonReplies.GetNeverNullParent` | jsonpath/jsonpath.go:231-244 | the report of a null parent is never made |
| `JsonPath.LookupKey` | jsonpath/jsonpath.go:308-325 | an exact match first, then the first key, in the order in which the map is ranged over, that is the same up to case |
| `JsonPath.GetValue` | jsonpath/jsonpath.go:178-182 | a path that does not parse is reported as such; else the lookup along its segments, with absolute segment numbers |
| `JsonPath.GetSegments` | jsonpath/jsonpath.go:184-267 | the loop, which prints and parses the rest of the path again for every item behind a wildcard, computes the specified lookup |
| `JsonPath.GetAfterAdd` | jsonpath/jsonpath.go:169-171 | getting the path just added gives the value |
| `JsonPath.MakeWay` | jsonpath/jsonpath.go:345-362 | walks down existing maps and makes the missing ones, or stops at a value that is not a map having changed nothing |
| `JsonPath.AddPath` | jsonpath/jsonpath.go:329-369 | in place: changes one key of the last existing map on the path and makes one map with one key for each further segment; every failure changes nothing |
| `JsonPath.RemoveKeys` | jsonpath/jsonpath.go:523-587 | in place: removes the last key and, for every map on the way that this empties, the key that a second lookup finds, whatever order the maps are ranged over in |
| `JsonPath.RemovePath` | jsonpath/jsonpath.go:506-592 | reports whether the path was there; a path that does not parse changes nothing |
| `JsonRemoval.RemovesIfFound` | jsonpath/jsonpath.go:523-587 | something is removed if and only if the lookups lead all the way; otherwise the document stays as it is |
| `JsonRemoval.RemovedMeans` | jsonpath/jsonpath.go:523-587 | exactly the last key goes, and above it the keys of the maps that this empties, if and only if every key that is looked up a second time is found again; no map off the way changes in any case |
| `JsonRemoval.DecidedIsSteady` | jsonpath/jsonpath.go:560-580 | that is so if in every map that loses its key only one key can be meant, or the key is there to the letter |
| `JsonRemoval.UndecidedCanFail` | jsonpath/jsonpath.go:560-580 | otherwise there is an order of ranging over the maps with which the removal does not do that |
| `JsonRemoval.UnrelatedKeyIsLost` | jsonpath/jsonpath.go:560-580 | a concrete document on which an unrelated key goes with all that is in it |
| `JsonRemoval.RemovalUndoesAdding` | jsonpath/jsonpath.go:506-592 | removing a path that was absent before it was added restores every map if and only if the last map that existed on the path is the root or was not empty |
| `JsonRemoval.EmptyMapIsLost` | jsonpath/jsonpath.go:506-592 | a concrete document that adding and removing a path does not restore |
| `CnameChain.HasRecordOfType` | dns/cname.go:136-144 | whether a name has a record of the type |
| `CnameChain.HasRecordsFor` | dns/cname.go:148-156 | whether a name has any record |
| `CnameChain.CnameTarget` | dns/cname.go:160-168 | the canonical name in the first alias record of a name |
| `CnameChain.FollowChain` | dns/cname.go:68-132 | for any resolver: it goes from alias to alias without repeating a name and asks, at most 16 times, only for names about which no record is at hand; it fails for a query exactly if one of its queries fails, which is then the last, and with that query's name and truncation status; on success every query has succeeded, the records are the input followed by the answers in order, the truncation status is the last query's, and the last name has a record of the type or no alias; a loop is reported exactly with the alias that leads back |
| `CnameChain.ChaseEnds` | dns/cname.go:68-132 | the path, the queries and what is at hand in the end, by induction over the links |
| `CnameChain.EndedReported` | dns/cname.go:119-131 | what the reply says about the queries, each way |
| `CnameChain.OnlyAskedMatters` | dns/cname.go:68-132 | the reply depends on the answers to the names asked and on no other: a resolver that agrees on them is asked the same and leads to the same reply |
| `CnameChain.AskedOnce` | dns/cname.go:68-132 | no name is asked twice, nor one that the walk has passed |
| `CnameChain.Chase` | dns/cname.go:68-132 | on success the input records are a prefix of the output; a failed hop is the resolver's failure for that name |
| `CnameChain.ChaseFollows` | dns/cname.go:68-132 | with honest answers it succeeds exactly when the walk ends within 16 links, having all records of every name on it; reports a loop exactly when a name comes again within 16 links; and else that the chain is too long |
| `CnameChain.ResolveType` | dns/cname.go:46-57 | the first answer and then the chain: the error of a failed query, or the answers to all queries in order; with the same exact outcome for a resolver that is honest about some zone, and exactly the queries of the two |
| `CnameWalk.EndNoLoop` | dns/cname.go:81-128 | a walk that ends never comes to a name again |
| `CnameWalk.LookupIsZone` | dns/cname.go:136-168 | searching what has been collected finds what the zone says of a name whose records it has |
| `Consensus.RecordsEqual` | dns/util.go:22-73 | true exactly if the answers have as many copies of each value, with each TTL unless it is ignored |
| `Consensus.SameClass` | dns/util.go:34-59 | comparing keys as multisets compares these copies; names do not matter |
| `Consensus.PutIntoGroup` | dns/consensus.go:42-58 | an answer joins the first group of its class or opens a new one at the end |
| `Consensus.FirstGroupDecides` | dns/consensus.go:61-70 | the first group with enough votes is that of the earliest answer enough resolvers agree with |
| `Consensus.ResolveType` | dns/consensus.go:17-73 | chooses the earliest answer whose class has as many votes among the successful resolvers as configured, or else more than half; fails exactly if no class has |
| `Consensus.VotesAre` | dns/consensus.go:36-59 | the votes of a class are as many as the resolvers that have answered with it |
| `Consensus.VotesApart` | dns/consensus.go:22-24 | two different classes do not share votes |
| `Consensus.VotesUnordered` | dns/consensus.go:36-59 | the votes do not depend on the order of the resolvers |
| `Consensus.MajorityUnordered` | dns/consensus.go:22-24 | with the default threshold the winning class is the only one with enough votes, and neither it nor the lack of one depends on the order of the resolvers |
| `OrderedEntries.PutDistinct` | maps/ordered_hash_map.go:97-118 | adding keeps the keys different |
| `OrderedEntries.ReaddedLast` | maps/ordered_hash_map.go:97-152 | removing a key and adding it again moves it to the end |
| `OrderedEntries.PutMeans` | maps/ordered_hash_map.go:97-118 | the entry goes to the place of the equal key, or to the end if there is none; all others stay |
| `OrderedEntries.WithoutMeans` | maps/ordered_hash_map.go:125-152 | the entry of the equal key goes; all others stay in their order |
| `OrderedEntries.OneMeans` | maps/ordered_hash_map.go:97-161 | what one operation does to the list, errors included, entry by entry |
| `OrderedEntries.CommonMeans` | maps/ordered_hash_map.go:262-281 | an entry is in the intersection exactly if the other map has an equal key |
| `OrderedEntries.UnionMeans` | maps/ordered_hash_map.go:232-252 | union: this map's entries in this map's order with the other's values where it has the key, then the other's further entries in its order |
| `OrderedEntries.AppliedDistinct` | maps/ordered_hash_map.go:97-161 | in every run no two keys are equal |
| `OrderedHashMap.LookupFinds` | maps/ordered_hash_map.go:59-75 | looking a key up by hash finds what comparing keys finds, and tells a collision from a match |
| `OrderedHashMap.OrderedHashMap.Get` | maps/ordered_hash_map.go:59-75 | the value of the equal key; a collision or a failing hash is an error |
| `OrderedHashMap.OrderedHashMap.Contains` | maps/ordered_hash_map.go:166-184 | membership, with the same errors |
| `OrderedHashMap.OrderedHashMap.Add` | maps/ordered_hash_map.go:97-118 | a new key goes to the end and an equal one keeps its place; fails exactly on a failing hash or a collision, and then changes nothing |
| `OrderedHashMap.OrderedHashMap.Remove` | maps/ordered_hash_map.go:125-152 | takes out the entry of the equal key and nothing else; fails exactly on a failing hash or a collision, and then changes nothing |
| `OrderedHashMap.OrderedHashMap.Clear` | maps/ordered_hash_map.go:158-161 | no entries |
| `OrderedHashMap.OrderedHashMap.Seq` | maps/ordered_hash_map.go:204-222 | the entries in order of insertion |
| `OrderedHashMap.OrderedHashMap.Run` | maps/ordered_hash_map.go:97-161 | any run of operations does to the map what it does to an insertion-ordered association list |
| `OrderedHashMap.OrderedHashMap.Clone` | maps/ordered_hash_map.go:306-318 | the same entries in the same order |
| `OrderedHashMap.OrderedHashMap.Union` | maps/ordered_hash_map.go:232-252 | the union of the lists; fails exactly when two keys collide or one of the other's keys cannot be hashed |
| `OrderedHashMap.OrderedHashMap.Intersection` | maps/ordered_hash_map.go:262-281 | this map's entries whose keys the other has, in this map's order; fails exactly when the other cannot look one of them up |

## Left out

- FixupDelete: a run that never ends is modelled as returning `spins`; the loop body is proved to change nothing from there on.
- RedBlackSet.Add: the set's tree is the map's tree with a unit value, because the two files hold the same algorithm; a second proof of it would add nothing.
- InternalLookup: keys' Equals is identity and LessThan a strict total order on keys.
- RedBlackMap.Seq: the iterator is a visit with a consumer that may stop; changing the tree while ranging over it is not modelled.
- RedBlackMap.Union: the other map is given by its entries, whatever its implementation.
- Accept: submission numbers do not wrap around at 64 bits.
- MovingRate: rates and fractions are real numbers, so floating-point rounding is not modelled; nor are durations near the limits of time.Duration, or counts beyond an int.
- SendOK: a nil budget, which admits everything, and the unused overload check are not modelled.
- OnResult: the variants with and without a context are one method with an optional context; what a started goroutine does with its callback, panics included, is not modelled.
- Futures: Map, FlatMap, Combine, executors and the awaiting of a context are compositions of what is modelled.
- HandleGet: an object is its identity, validity checks, Close results, clock readings and new objects are inputs, and the factory never makes the same object twice.
- Leave: the errors of the last Close calls are told by the objects they come from; their texts and their joining into one error are not modelled.
- ObjectPool: timeouts of Get, Put and CloseIdle, Put of an object that was not borrowed, and a second concurrent Close are not modelled.
- ParsePath: the regular expression engine is a leftmost scanner for the two segment forms, and text is a sequence of characters.
- RemovePath: the order of ranging over a map is an input, anew for the first and the second lookup of a removal; a map that two paths share has one order for each. Nil input maps are not modelled.
- GetValue: like RemovePath, one order of ranging for each map.
- DivergingUnaffected: like RemovalUndoesAdding, for documents in which no map is shared; AddPath, RemovePath and GetValue themselves are specified for any sharing.
- UpdateValue, ValidatePath, ExtractRootField: short combinations of parsing and the same walk.
- FollowChain: name canonicalisation is any function that gives the same result when applied twice, and a resolver answers a name always in the same way; transports and caches are not modelled.
- Consensus: the other strategies, which race, fall back or compare, and the filters of IP addresses.
- OrderedHashMap: hashing is any function that treats equal keys alike; Filter, Map, FlatMap, ForEach and the like build on Seq and Add.
- Metrics, spans, logging, random jitter and locks around single operations are left out throughout.
- The thread-safe and default-value wrappers, actors, command-line tools and the other utility packages are left out because their members are forwarding or one-branch facts.
