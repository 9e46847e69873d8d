# A verified model of the Go utilities

These Dafny files model the concurrent and stateful cores of the repository and prove what they
promise, over every input, every interleaving and every run. `dafny verify dfyconfig.toml` checks all
of it. Objects that the source updates in place are classes whose methods have the same loops and
branches; each method is proved against a function, and the promises are lemmas about the functions.
Protocols of many goroutines or machines are transition systems with one step for each atomic access,
stale read, channel operation or command.

| file | models |
|---|---|
| `Goroutines.dfy` | int32 arithmetic and the counting of goroutines by role, shared by the two locks |
| `HandoffMutex.dfy` | `sync/mutex.go`: the packed word, spinning, sleeping and the hand-off of starvation mode |
| `RWMutex.dfy` | `sync/rwmutex.go`: readers announcing and counting themselves off under one writer |
| `RateLimiter.dfy` | `rateLimiter.go`: the sliding windows, their clearing, and the options |
| `BTreeItems.dfy`, `BTreeNodes.dfy`, `BTreeWhole.dfy`, `BTreeIterate.dfy` | `B-Tree/btree.go` on trees as values: sorted listings, insertion and removal below a node, whole trees over runs of calls, iteration |
| `BTreeCut.dfy` | what becomes of a tree whose inner root was copied without its children |
| `BTreeHeap.dfy`, `BTree.dfy` | the same on heap nodes that are shared between clones, owned by contexts and recycled through the free list |
| `HandlerChain.dfy` | `gin/context.go` and `gin/routergroup.go`: handlers that re-enter the chain through an int8 cursor |
| `LeaseLock.dfy` | `go-lock.go`: the lease, its renewal loop and the two scripts under a clock |
| `RetryQueue.dfy` | `retryQueue.go`: worker tokens in a channel, tasks in a heap |
| `RouteTree.dfy`, `RouteHeap.dfy` | `gin/tree.go` for paths without wildcards, as values and in place |
| `SpanCache.dfy` | `memoryAlloc/malloc.go`: the bitmap fast path `nextFreeFast` |

## Where the code differs from what it is meant to do

The model follows the code; where it falls short, a lemma says exactly when.

- `deleteItem` (`B-Tree/btree.go:514`) takes child 0 of an emptied root even when there is none:
  removing the only item of a tree panics, and only that does (`BTreeWhole.DeleteItemOk`). After the
  panic the length is one too high for good (`BTreeWhole.LengthCounts`).
- `mutableFor` (`B-Tree/btree.go:160-165`) does not copy the child pointers: the copy of an inner node
  is no tree. `Context.copiesChildren` is false for the code as it stands and true for the repair. As it
  stands, a clone without inner nodes is a tree like any other; the first write to one with inner nodes
  loses everything below its root (`BTreeCut.FirstWriteExactly`), and from then on it has the keys of that
  root, exactly (`BTreeCut.CutKeepsKeys`). The other tree never notices (`BTrees.Interleave`): isolation
  holds for both values, for trees of any height, over any interleaving of calls.
- `iterate` (`B-Tree/btree.go:407`) returns false at its end, so it stops after the first leaf; `last`
  is that result, false in the source and true in the repair (`BTreeIterate.IterateGivesAllExactly`).
- `TryAcquire` (`rateLimiter.go:118-122`) counts requests made in the last moments of a window in slots
  no clear reaches, so a limiter can lock everyone out for good (`RateLimiter.LockoutExactly`); and the
  comment on `WithWindowsSize` promises more than the limiter keeps (`RateLimiter.PromiseExactly`).
- `Run` (`retryQueue.go:212`) takes the last element of the heap, not the greatest
  (`RetryQueue.TakenIsGreatest`).
- `IsAbouted` (`gin/context.go:123-125`) can hold without an abort (`HandlerChain.IsAbortedExactly`), and
  handlers that call `Next` often can wrap the cursor around (`HandlerChain.ServeEndsAt`).
- The post statement of the loop at `gin/tree.go:108` is read as `newPos--`, and `insertChild`, which is
  not part of the repository, as setting path, handlers and full path of a child without wildcards.
- The lower part of an edge that is cut keeps the priority just raised for a route that does not run through
  it (`gin/tree.go:138`), so a priority can exceed the number of routes below (`RouteTree.InsertCuts`).
- A lease in `go-lock.go` counts whole milliseconds, so the bound of `LeaseLock.ExclusiveExactly` is on
  the truncated `expiresTime`.
- A release of `go-lock.go:240-249` that Redis carries out after its caller has given up can delete a key
  the same machine has acquired since (`LeaseLock.LateReleaseBreaks`).

## Model

| member | source | states |
|---|---|---|
| `HandoffMutex.DecodeEncode` | sync/mutex.go:20-34 | packing locked, woken, starving and the waiter count into one int32 and reading them back with the masks and the shift gives the same four values |
| `HandoffMutex.EncodeDecode` | sync/mutex.go:20-34 | every non-negative int32 is the packing of exactly one such word |
| `HandoffMutex.AddIs` | sync/mutex.go:141-145 | adding a delta to the packed word, as the atomic adds do, is the update of its fields it is meant to be, as long as nothing wraps around |
| `HandoffMutex.AddWaiterKeepsBits` | sync/mutex.go:102-104 | counting one more waiter, overflow of the int32 included, leaves the three flag bits as they were |
| `HandoffMutex.SwapKeepsSound` | sync/mutex.go:96-121 | the compare-and-swap of lockSlow, made from a possibly stale word, keeps the tally of goroutines and the word consistent: it takes the lock or registers one waiter, and clears the woken bit only for its one owner |
| `HandoffMutex.WakeKeepsSound` | sync/mutex.go:134-149 | a goroutine back from the semaphore becomes the owner of the woken bit, or finds the word of a hand-off: unlocked, not woken, at least one waiter |
| `HandoffMutex.HandoffKeepsSound` | sync/mutex.go:141-146 | the atomic add of a hand-off keeps the tally of goroutines and the word consistent |
| `HandoffMutex.UnlockSlowKeepsSound` | sync/mutex.go:182-196 | the wake-up of unlockSlow uncounts one waiter and sets woken with exactly one semaphore release to follow |
| `HandoffMutex.StepKeepsInv` | sync/mutex.go:36-200 | every atomic step of any goroutine - access of the word, stale read, semaphore call - keeps the invariant over an unbounded set of goroutines |
| `HandoffMutex.MutualExclusion` | sync/mutex.go:36-200 | in every reachable state at most one goroutine is past acquisition and not yet released, and one is exactly when the locked bit is set |
| `HandoffMutex.NeverThrows` | sync/mutex.go:110-115 | none of the three throws (112, 139, 180) is reachable when only holders unlock, and the word stays a non-negative int32 |
| `HandoffMutex.WaitersExact` | sync/mutex.go:98-104 | the waiter count equals the registered sleepers less the wake-ups in flight; during starvation also those handed the lock but not yet holding it |
| `HandoffMutex.StarvingSuccession` | sync/mutex.go:137-146 | while starvation lasts only a waiter that was handed the lock becomes its holder, and it finds the word unlocked, not woken and with a waiter counted |
| `HandoffMutex.StuckOnlyAsleep` | sync/mutex.go:36-200 | a goroutine cannot step exactly when it sleeps and no token is there; any other can, whether it chooses to spin or not |
| `HandoffMutex.LockAtOnce` | sync/mutex.go:36-45 | Lock takes the lock at once exactly when the packed word is zero |
| `HandoffMutex.TryLockLooks` | sync/mutex.go:47-51 | TryLock fails at its look exactly when the lock has a holder or the mode is starvation |
| `HandoffMutex.TryLockReturns` | sync/mutex.go:52-58 | after that it returns true, with the lock, exactly when the word is still what it was at the look, however many steps of others lie between |
| `HandoffMutex.WaitIsRemembered` | sync/mutex.go:134-135 | a waiter back from the semaphore takes one token and is starving exactly when this wait or an earlier one was long |
| `HandoffMutex.WokenWaiterDecides` | sync/mutex.go:136-148 | a woken waiter that finds starvation mode is handed the lock, by a delta that keeps the mode exactly when its own wait was long and others wait; in normal mode it goes back to the loop owning the woken bit |
| `HandoffMutex.HandoffEndsStarvation` | sync/mutex.go:137-146 | whatever other goroutines do between its look and its add, the waiter that was handed the lock leaves a locked word with one waiter less, in starvation mode exactly when its own wait was long and others waited |
| `HandoffMutex.LoopSwaps` | sync/mutex.go:96-121 | the swap of lockSlow on a current copy: takes a free lock, otherwise counts a waiter; sets starvation exactly when the wait was long and the lock is held; gives back an owned woken bit |
| `HandoffMutex.LoopLooksAgain` | sync/mutex.go:150-152 | with a stale copy it changes nothing and loads the word again |
| `HandoffMutex.LoopSpins` | sync/mutex.go:77-90 | spinning takes the woken bit exactly when it is free and waiters are asleep |
| `HandoffMutex.UnlockFrees` | sync/mutex.go:167-184 | Unlock clears the locked bit only, is done exactly when the word is then zero, and hands over in starvation mode |
| `HandoffMutex.UnlockWakes` | sync/mutex.go:182-196 | unlockSlow uncounts one waiter and sets woken exactly when there is one, the lock is free and nobody is woken; on a stale copy of such a word it looks again |
| `HandoffMutex.ReleasePosts` | sync/mutex.go:192-198 | each wake-up and each hand-off posts one token |
| `HandoffMutex.StarvationBeginsAndEnds` | sync/mutex.go:106-146 | in every run the mode becomes starvation exactly at the swap of a waiter whose wait was long on a held lock, and ends exactly at the add of a waiter that decided so |
| `HandoffMutex.DutyExists` | sync/mutex.go:178-199 | with the lock free and a goroutine asleep some goroutine is on its way to wake it or to take the lock |
| `HandoffMutex.BusyLightens` | sync/mutex.go:36-200 | while no goroutine holds the lock, each step of a goroutine inside a call lowers one measure, keeps the invariant, and leaves every waiting goroutine waiting |
| `HandoffMutex.NoLostWakeup` | sync/mutex.go:98-199 | from every reachable state with a goroutine waiting in Lock and no holder, the goroutines already inside bring the lock to a holder by themselves in whatever order they step: a path without a holder can always be continued, and is never longer than a bound in the number of goroutines |
| `RWMutex.AnnounceKeepsSound` | sync/rwmutex.go:83-86 | the writer making readerCount negative sees exactly the readers inside, and goes straight in only if there are none |
| `RWMutex.AddReadersKeepsSound` | sync/rwmutex.go:85 | adding the readers seen to readerWait, which departing readers may have driven negative, leaves exactly the readers still awaited |
| `RWMutex.DepartKeepsSound` | sync/rwmutex.go:74-76 | a departing reader counts itself off, and signals only as the last one awaited |
| `RWMutex.StepKeepsInv` | sync/rwmutex.go:19-93 | every atomic step of RLock, TryRLock, RUnlock and Lock keeps the invariant, for fewer than 2^30 goroutines |
| `RWMutex.WriterExcludesAll` | sync/rwmutex.go:78-93 | once Lock has returned no reader, admitted before or after, is inside, and no other writer is |
| `RWMutex.NeverThrows` | sync/rwmutex.go:69-73 | the throw of rUnlockSlow is unreachable for a reader that holds the lock |
| `RWMutex.ZeroSeenOnce` | sync/rwmutex.go:74-86 | the writer and the departing readers between them see zero once, exactly when every awaited reader is gone |
| `RWMutex.CountExact` | sync/rwmutex.go:19-93 | in every run readerCount is the number of readers counted, less 2^30 exactly when a writer has announced itself |
| `RWMutex.StuckExactly` | sync/rwmutex.go:19-93 | a goroutine cannot step exactly when it waits for a writer, is one, or wants the inner mutex of one |
| `RWMutex.RLockAdmits` | sync/rwmutex.go:19-31 | RLock counts the reader and lets it in exactly when no writer has announced itself |
| `RWMutex.TryRLockAdmits` | sync/rwmutex.go:33-54 | TryRLock fails exactly when it sees an announced writer; otherwise it counts the reader and lets it in, or tries again when the count has moved |
| `RWMutex.RUnlockDeparts` | sync/rwmutex.go:56-68 | RUnlock uncounts the reader, and goes on to rUnlockSlow exactly when a writer has announced itself |
| `RWMutex.LockAnnounces` | sync/rwmutex.go:78-87 | Lock announces the writer and lets it in at once exactly when no reader is inside |
| `RWMutex.LastReaderSignals` | sync/rwmutex.go:69-87 | a departing reader goes on to signal exactly as the last of those the writer has counted, and a writer sleeps exactly when one of them is still inside |
| `RWMutex.TokenPasses` | sync/rwmutex.go:75-87 | a signal posts one token, the writer takes one, and the inner mutex is taken only when free |
| `RWMutex.WriterNotStranded` | sync/rwmutex.go:74-87 | from every reachable state with a writer past the inner mutex, the goroutines already inside let it in by themselves in whatever order they step: a path that keeps it out can always be continued, and is never longer than a bound in the number of goroutines |
| `BTreeItems.FindBinary` | B-Tree/btree.go:99-107 | the binary search finds the position of the key, or where it belongs, in a sorted slice |
| `BTreeItems.FindIsPosition` | B-Tree/btree.go:99-107 | everything left of the position is smaller than the key and everything right of it greater, and it is found exactly when it is there |
| `BTreeItems.PositionIsFind` | B-Tree/btree.go:99-107 | there is only one such position |
| `BTreeItems.PutIsUpdate` | B-Tree/btree.go:195-205 | putting an item into a sorted listing is the update of the map it stands for, and keeps it sorted |
| `BTreeItems.DropIsRemoval` | B-Tree/btree.go:277-284 | dropping a key from a sorted listing is its removal from the map, and keeps it sorted |
| `BTreeItems.AsMapLooksUp` | B-Tree/btree.go:221-229 | looking a key up in a sorted listing is looking it up in the map |
| `BTreeNodes.SplitChildOk` | B-Tree/btree.go:184-193 | splitting a full child keeps the listing of the node, uniform depth and occupancy |
| `BTreeNodes.InsertOk` | B-Tree/btree.go:195-220 | insertion below a node that is not full makes its listing the old one with the item put in, returns what was replaced, and keeps depth, occupancy and key order through every pre-emptive split |
| `BTreeNodes.RotateRightOk` | B-Tree/btree.go:301-309 | a steal from the left neighbour keeps the joint listing and the occupancy of both |
| `BTreeNodes.RotateLeftOk` | B-Tree/btree.go:310-318 | a steal from the right neighbour keeps the joint listing and the occupancy of both |
| `BTreeNodes.MergeKidsOk` | B-Tree/btree.go:319-330 | a merge of two minimal neighbours keeps the listing and the occupancy |
| `BTreeNodes.GrowChosenOk` | B-Tree/btree.go:300-331 | one steal or one merge keeps listing and shape, and the child chosen again afterwards is no longer minimal - so remove and growChildAndRemove terminate |
| `BTreeNodes.GrowExactly` | B-Tree/btree.go:300-331 | which neighbour helps, and with what: the left one if it can spare an item, else the right one; if neither can, the child merges with its right neighbour, the last child with its left one |
| `BTreeNodes.RemoveOk` | B-Tree/btree.go:263-298 | remove takes exactly the item asked for out of the listing - a given key, the least, the greatest - and returns it, and keeps key order, uniform depth and occupancy |
| `BTreeNodes.ReplacedByPredecessor` | B-Tree/btree.go:292-296 | an item found in an inner node goes when the greatest item below it takes its place |
| `BTreeWhole.GetOk` | B-Tree/btree.go:221-229 | get finds in the tree what the listing, read as a map, has for the key |
| `BTreeWhole.GrownOk` | B-Tree/btree.go:483-491 | splitting a full root under a new one keeps the listing and the shape |
| `BTreeWhole.ReplaceOrInsertOk` | B-Tree/btree.go:473-498 | on a whole tree: the map becomes the old one with the key set, the replaced item or none is returned, the length follows, and the tree stays in shape |
| `BTreeWhole.DeleteItemOk` | B-Tree/btree.go:508-523 | on a whole tree: exactly the item asked for is removed and returned and the length follows, unless it was the only item; then, and only then, it panics at 516, leaving an empty leaf and the length as it was |
| `BTreeWhole.SettledOk` | B-Tree/btree.go:514-521 | what becomes of the root after removal: the collapse keeps listing and shape, and the index into no children happens exactly when the tree has been emptied |
| `BTreeWhole.EndsAreExtreme` | B-Tree/btree.go:230-253 | the first and the last item of the listing are those of the least and the greatest key of the map |
| `BTreeWhole.RunRefinesMap` | B-Tree/btree.go:473-523 | in every run of calls on a new tree, each call does to the map what its map operation does - the calls that panic included |
| `BTreeWhole.PanicReached` | B-Tree/btree.go:514-516 | the panic is reached by inserting one item into an empty tree and deleting it again |
| `BTreeWhole.LengthCounts` | B-Tree/btree.go:493-495 | in every run the length is the size of the map plus the number of panics a caller recovered from |
| `BTreeWhole.HeightBound` | B-Tree/btree.go:437-442 | a tree of height h and degree d with an item holds at least 2*d^h - 1 and at most (2d)^(h+1) - 1 items |
| `BTreeWhole.RunHeight` | B-Tree/btree.go:437-523 | the same bound in every run of insertions and deletions |
| `BTreeHeap.FreeList.NewNode` | B-Tree/btree.go:30-41 | a node comes from the end of the free list, or is new when the list is empty |
| `BTreeHeap.FreeList.FreeNode` | B-Tree/btree.go:42-50 | a node is kept while there is room; the nodes of the list stay distinct and empty |
| `BTreeHeap.Context.NewNode` | B-Tree/btree.go:443-448 | the node belongs to the context, is no longer on the list, and no other listed node changes |
| `BTreeHeap.Context.FreeNode` | B-Tree/btree.go:458-471 | only a node of this context is emptied and stored |
| `BTreeHeap.Node.MutableFor` | B-Tree/btree.go:149-166 | the node itself, or an owned node with its items; the copy is a tree with the same listing exactly when the node has no children - or when copies keep their children, the repair |
| `BTreeHeap.Node.MutableChild` | B-Tree/btree.go:168-172 | the child is owned afterwards; the listing of the node does not change and no node of another context is written |
| `BTreeHeap.Node.Split` | B-Tree/btree.go:173-183 | split in place: this node and the new one hold what the split of the tree says, share no node, and the new one comes from the free list or the allocator |
| `BTreeHeap.Node.MaybeSplitChild` | B-Tree/btree.go:184-193 | in place: a full child is split, any other left alone |
| `BTreeHeap.Node.Insert` | B-Tree/btree.go:195-220 | insertion in place refines insertion into the tree as a value; it writes only nodes its context owns and the free list |
| `BTreeHeap.Node.Get` | B-Tree/btree.go:221-229 | get descends to what the tree has for the key, without writing |
| `BTreeHeap.Node.TakeLast` | B-Tree/btree.go:301-309 | the steal from the left, in place on two neighbours |
| `BTreeHeap.Node.TakeFirst` | B-Tree/btree.go:310-318 | the steal from the right, in place on two neighbours |
| `BTreeHeap.Node.MergeAt` | B-Tree/btree.go:319-328 | the merge, in place; the absorbed node is no longer reachable |
| `BTreeHeap.Node.GrowChild` | B-Tree/btree.go:300-330 | in place: one steal or one merge around the child; nodes go to the free list only when owned and no longer reachable |
| `BTreeHeap.Node.Remove` | B-Tree/btree.go:263-298 | removal in place refines removal from the tree as a value, and ends: the measure is the height, then whether the chosen child is minimal |
| `BTreeHeap.Node.IterateUp` | B-Tree/btree.go:341-371 | the ascending loop over heap nodes computes the ascending walk over the tree |
| `BTreeHeap.Node.IterateDown` | B-Tree/btree.go:372-406 | the descending loop over heap nodes computes the descending walk over the tree |
| `BTreeIterate.UpFeeds` | B-Tree/btree.go:345-371 | with `true` as the last result, the ascending walk visits exactly the items from the start on, in order |
| `BTreeIterate.DownFeeds` | B-Tree/btree.go:372-406 | with `true` as the last result, the descending walk visits exactly the items from the start down, in order |
| `BTreeIterate.IterateGivesRange` | B-Tree/btree.go:341-408 | with `true` as the last result, for every start, stop and callback: the callback is given the items in range, in order, up to the one after which it has had enough |
| `BTreeIterate.IterateGivesFirstLeaf` | B-Tree/btree.go:341-408 | as written, with `false`, for every start, stop and callback: it is given what the first leaf the walk reaches holds of the range, up to the item after which it has had enough |
| `BTreeIterate.IterateGivesAllExactly` | B-Tree/btree.go:407 | that is always a prefix of what the repaired walk gives, and all of it exactly when the whole range lies in that leaf or the callback stops within it |
| `BTreeIterate.AllExactlyFromLeaf` | B-Tree/btree.go:407 | as written, an iteration over everything gives everything exactly when the root is a leaf |
| `BTrees.BTree.New` | B-Tree/btree.go:57-65 | a new tree is empty; a degree of one or less panics |
| `BTrees.BTree.Get` | B-Tree/btree.go:575-580 | returns what the map has for the key |
| `BTrees.BTree.Min` | B-Tree/btree.go:230-241 | the item of the least key, or none |
| `BTrees.BTree.Max` | B-Tree/btree.go:242-253 | the item of the greatest key, or none |
| `BTrees.BTree.Iterate` | B-Tree/btree.go:524-574 | the items given are those of the first leaf reached that are in range, a prefix of the range; with the last result repaired, the range up to where the callback stops |
| `BTrees.BTree.ReplaceOrInsert` | B-Tree/btree.go:473-498 | on heap nodes, for every tree, clones included: it refines the insertion whose effect on the map is proved - or, when mutableFor has to copy or has copied an inner root, the insertion into what is left of the tree |
| `BTrees.BTree.SetCut` | B-Tree/btree.go:195-220 | in place on what is left of a cut tree: a full node is split as ever, and the call panics at the first nil child exactly when the specification says |
| `BTrees.BTree.DeleteItem` | B-Tree/btree.go:508-523 | on heap nodes, for every tree, clones included: it refines the deletion whose effect on the map is proved, the panic included - or the deletion from what is left of a cut tree |
| `BTrees.BTree.DeleteCut` | B-Tree/btree.go:263-332 | in place on what is left of a cut tree: two minimal nodes are merged before the call panics at a nil child; from a root without items nothing is deleted |
| `BTrees.BTree.CopyRoot` | B-Tree/btree.go:149-166 | the copy of an inner root has its items and nil children; it comes from the free list or the allocator |
| `BTreeCut.SetStumpOk` | B-Tree/btree.go:149-220 | after the children were lost: inserting replaces an item of the copied root, and panics exactly when its key is not among them; nothing is ever added |
| `BTreeCut.DeleteStumpOk` | B-Tree/btree.go:263-332 | and deleting panics, or returns nothing from a root without items, and never removes one |
| `BTreeCut.FirstWriteExactly` | B-Tree/btree.go:149-166 | the first write to a clone makes of it what it should exactly when the tree has no inner nodes |
| `BTreeCut.IntactRuns` | B-Tree/btree.go:429-523 | a tree without inner nodes, or with a root of its own, goes on in every run as if it had never been cloned |
| `BTreeCut.CutKeepsKeys` | B-Tree/btree.go:473-523 | in every run after such a write the tree keeps exactly the keys of the root at the time of the copy |
| `BTrees.BTree.Clone` | B-Tree/btree.go:429-435 | both trees keep the contents and get contexts of their own, so neither owns a node they share |
| `BTrees.BTree.DoBeside` | B-Tree/btree.go:149-166 | a write to one tree - panics and lost children included - leaves the other, which shares nodes and free list with it, with the contents and the shape it had, and the trees stay apart |
| `BTrees.Interleave` | B-Tree/btree.go:429-523 | a tree and its clone, of any height and with or without the children copied, under any interleaving of calls: each ends as if it had been alone |
| `RateLimiter.SlideWindowsLimiter.constructor` | rateLimiter.go:76-89 | the default limiter: 12288 permits, a window of three seconds, 1024 sub-windows |
| `RateLimiter.SlideWindowsLimiter.WithSubWindowsNumber` | rateLimiter.go:40-45 | the distance follows from window size and number; zero panics |
| `RateLimiter.SlideWindowsLimiter.WithWindowsSize` | rateLimiter.go:48-53 | the distance follows from window size and number |
| `RateLimiter.DivTruncates` | rateLimiter.go:44-52 | the quotients of Go: the largest in size that does not overshoot, with the sign of the operands |
| `RateLimiter.SlideWindowsLimiter.DeferCreateWindows` | rateLimiter.go:67-74 | the counters of all sub-windows start at zero |
| `RateLimiter.SlideWindowsLimiter.TryOnce` | rateLimiter.go:111-146 | one pass under the lock triggers a clear exactly when the window is over, refuses exactly when the window is not over and the total has reached the permits, and otherwise adds one to the total and to the counter of its sub-window only |
| `RateLimiter.SlideWindowsLimiter.ClearOutdated` | rateLimiter.go:131-143 | the loop of the clearing goroutine takes exactly the counters it zeroes off the total |
| `RateLimiter.SlideWindowsLimiter.TryAcquire` | rateLimiter.go:111-148 | calling itself again after each clear, for the readings of the clock it is given: it is answered exactly at the first reading within the window, with false only when the permits are used up |
| `RateLimiter.ExecInv` | rateLimiter.go:111-148 | every run of accepts, rejects, triggers and clears under a clock that does not go back keeps the counters equal to the accepted requests not yet cleared |
| `RateLimiter.ClearedIsOld` | rateLimiter.go:117-140 | what a clear erases was accepted longer before the request that triggered it than the protected interval |
| `RateLimiter.TotalIsSum` | rateLimiter.go:111-148 | in every run totalCount is the sum of all window counters and at most the permits |
| `RateLimiter.CallAnswers` | rateLimiter.go:111-148 | in every run a call is refused exactly when it comes inside the window and the accepted requests not yet cleared use up the permits, and then nothing changes; it triggers a clear exactly when the window is over, after which the window starts at that call |
| `RateLimiter.ProtectedExactly` | rateLimiter.go:111-148 | in every run every interval of a length holds at most the permits exactly for lengths up to a bound read off the configuration, which is at least (subWindowsSize-1)*smallWindowsDistance; one nanosecond longer and some run breaks it |
| `RateLimiter.PromiseExactly` | rateLimiter.go:47-53 | the promise made for windowsSize holds exactly for the few configurations whose sub-windows are single nanoseconds |
| `RateLimiter.LockoutExactly` | rateLimiter.go:136-140 | a limiter rejects every later request for good exactly when the counts in slots no clear ever reaches use up the permits |
| `RateLimiter.LockoutReachable` | rateLimiter.go:118-122 | every configuration has a run that ends so |
| `HandlerChain.ServesInOrder` | gin/context.go:116-129 | whatever the handlers do, they start in the order of the chain, each at most once and none after an abort; all start unless one aborts or the cursor leaves its range |
| `HandlerChain.LoopBounded` | gin/context.go:116-122 | the loop that starts at handler i ends with the cursor at most 64 + n - i, when each handler calls Next at most once |
| `HandlerChain.CursorStaysInRange` | gin/context.go:116-129 | for a chain from combineHandlers whose handlers call Next at most once each the int8 cursor never exceeds 126, so it never wraps around |
| `HandlerChain.FurthestReaches126` | gin/context.go:39 | the bound is met: 62 handlers, the last of which aborts and then calls Next |
| `HandlerChain.ServeEndsAt` | gin/context.go:116-129 | for every chain and any handlers: a request panics exactly when the cursor would leave the int8 range, which a structural count of calls and aborts says, and otherwise ends with the cursor at that count and with an abort behind it exactly when some handler has one |
| `HandlerChain.AbortFreeExactly` | gin/context.go:116-122 | without aborts that count is the number of handlers and their calls of Next together: the request panics exactly from 128 on, and otherwise leaves the cursor there |
| `HandlerChain.IsAbortedExactly` | gin/context.go:123-125 | after any request that did not panic IsAbouted says true exactly when some handler aborts or handlers and calls of Next together are 63 or more |
| `HandlerChain.RepeatedNextPanics` | gin/context.go:117-121 | the cursor does wrap around: one handler that calls Next n times panics from n == 127 on |
| `HandlerChain.IsAbortedMisleads` | gin/context.go:123-125 | and IsAbouted does mislead: after n handlers that all call Next once, from n == 32 on |
| `HandlerChain.Context.Next` | gin/context.go:116-122 | the loop over the field index, re-entered from the handlers, computes the specified result; an index out of range is the panic |
| `HandlerChain.Context.Call` | gin/context.go:119 | a handler runs its calls of Next and Abort one after the other |
| `HandlerChain.Context.Abort` | gin/context.go:127-129 | the cursor goes to the abort index, so IsAborted holds |
| `HandlerChain.Context.IsAborted` | gin/context.go:123-125 | what it says of the context is what the lemmas above say of the state, so true after Abort |
| `HandlerChain.RouterGroup.Use` | gin/routergroup.go:48-51 | appends without a bound |
| `HandlerChain.RouterGroup.CombineHandlers` | gin/routergroup.go:162-169 | group handlers followed by the given ones, or a panic from 63 handlers on |
| `HandlerChain.RouterGroup.Group` | gin/routergroup.go:52-58 | the new group starts with the handlers its parent has now |
| `HandlerChain.RouterGroup.Handle` | gin/routergroup.go:63-68 | a request on a route runs group and route handlers as one chain, in order, and is served exactly when the cursor stays in range - always when each handler calls Next at most once; then IsAborted of its context is characterised exactly |
| `LeaseLock.Store.SetNX` | go-lock.go:166-171 | sets the key with its lease only when no live key is there |
| `LeaseLock.Store.DelayScript` | go-lock.go:174-180 | prolongs the lease only of the machine that owns the live key |
| `LeaseLock.Store.ReleaseScript` | go-lock.go:227-231 | deletes the key only for the machine that owns it |
| `LeaseLock.OthersKeyStays` | go-lock.go:227-249 | whatever a machine does, commands carried out after their caller gave up included, a live key of another machine stays |
| `LeaseLock.ProlongedOnlyByLoop` | go-lock.go:130-146 | a lease is prolonged only by the renewal loop of its owner, so never once that loop has taken delayDone and release is called |
| `LeaseLock.CallsTimeOut` | go-lock.go:166-249 | in every run, whatever the configuration, a call has been under way for at most cancelTime and a renewal loop does not oversleep |
| `LeaseLock.StepKeepsInv` | go-lock.go:123-249 | every step under the clock keeps the lease of a holder running past its next renewal, when two calls and a pause fit into it and no machine asks while a release of its own is in flight |
| `LeaseLock.TurnedAway` | go-lock.go:158-171 | a machine that asks while the key is live is turned away and changes nothing |
| `LeaseLock.RenewalIsExact` | go-lock.go:130-146 | a renewal that is carried out sets the lease to the whole milliseconds of expiresTime from that moment, and the next follows a fifth of expiresTime after it is answered |
| `LeaseLock.ReleaseFrees` | go-lock.go:240-249 | in every run a release that is carried out leaves its machine without the key, and another machine its live key |
| `LeaseLock.UnlockFrees` | go-lock.go:217-225 | UnLock, with its release carried out once, leaves no live key behind |
| `LeaseLock.UnlockHandsOver` | go-lock.go:217-225 | from every reachable state in which a holder unlocks, its release carried out once and the Lock of an idle machine make that machine the holder, with a lease of its own |
| `LeaseLock.FailedCalls` | go-lock.go:166-171 | a call that fails leaves its machine outside and the key as it is; its command, carried out later, still takes a free key or deletes its own |
| `LeaseLock.OrphanedLock` | go-lock.go:158-171 | so a Lock whose call fails can keep every machine out until the lease lapses |
| `LeaseLock.HolderKeepsKey` | go-lock.go:123-171 | between the return of Lock and the call of UnLock the key is the holder's own and has not lapsed, in every run in which no machine asks while a release of its own is in flight |
| `LeaseLock.TwoHolders` | go-lock.go:137-143 | when two calls and a pause do not fit into the lease, a run without any failed call makes two machines hold the lock |
| `LeaseLock.LateReleaseBreaks` | go-lock.go:240-249 | from every reachable state in which a holder's own late release is in flight, carrying it out and the Lock of an idle machine make two machines hold the lock, however long the lease |
| `LeaseLock.LateReleaseReached` | go-lock.go:240-249 | such a state is reached when a release is carried out twice and its first answer is lost |
| `LeaseLock.ExclusiveExactly` | go-lock.go:123-249 | two machines never both hold the lock, in any run of any number of machines, exactly when 2*cancelTime + expiresTime/5 is less than the lease in whole milliseconds and no machine asks while a release of its own is in flight |
| `LeaseLock.DefaultsAreExclusive` | go-lock.go:29-34 | the default times are long enough |
| `RetryQueue.TaskArena.Push` | retryQueue.go:165-167 | heap.Push on the arena: append and sift up, with a Less that also holds of equal priorities |
| `RetryQueue.TaskArena.Pop` | retryQueue.go:169-175 | takes the last element of the slice |
| `RetryQueue.PushKeepsHeap` | retryQueue.go:145-167 | the arena stays a max-heap on priority and gains exactly the task |
| `RetryQueue.HeapByChildren` | retryQueue.go:145-167 | heap order is that of container/heap, whose children of index k are 2k+1 and 2k+2 |
| `RetryQueue.TakenIsGreatest` | retryQueue.go:212 | the task Run takes is of the highest priority exactly when its priority equals that of the root |
| `RetryQueue.LowerFirst` | retryQueue.go:212 | two tasks suffice for the lower one to be taken first, whichever was added first |
| `RetryQueue.PushTops` | retryQueue.go:145-157 | a new task comes to the root exactly when no task is above it: it passes those of its own priority |
| `RetryQueue.NewRetryQuery` | retryQueue.go:82-90 | the channel starts with every worker index in order |
| `RetryQueue.StepKeepsInv` | retryQueue.go:106-230 | every interleaved step of AddTask, Run and the workers keeps tokens, tasks and heap order |
| `RetryQueue.EveryIndexInOnePlace` | retryQueue.go:82-127 | in every run a worker index is in the channel, with Run, or with one running worker - in exactly one place, once |
| `RetryQueue.EveryTaskInOnePlace` | retryQueue.go:106-128 | in every run an added task is in the arena, with Run, with one worker or finished - in exactly one place |
| `RetryQueue.TasksKeepPriority` | retryQueue.go:176-186 | in every run each task in the heap, with Run or with a worker is one that AddTask made, with the priority it was given |
| `RetryQueue.TriesAreFailures` | retryQueue.go:107-126 | a running worker has counted exactly its failures since it was started, fewer than retryTimes |
| `RetryQueue.RetriesExactly` | retryQueue.go:112-127 | a task is pushed back exactly at the last of retryTimes failures in a row, tried again by the same worker before, and done when it succeeds |
| `RetryQueue.SignalInOrder` | retryQueue.go:192-227 | the channel hands the worker indices out in the order in which they were sent |
| `RetryQueue.LoafsWhileEmpty` | retryQueue.go:185-219 | loaf says that Run has found the heap empty since the last AddTask; while it does exactly one token of remained is in the channel or with Run |
| `RetryQueue.TokenAfterEmpty` | retryQueue.go:194-218 | there is no such token before Run first finds the heap empty |
| `RetryQueue.RunStepsExactly` | retryQueue.go:192-222 | when Run wakes, dozes, takes an index or finds the heap empty, and what it leaves in the channel |
| `RetryQueue.NoSendBlocks` | retryQueue.go:188-230 | in every run no send on signal or remained blocks |
| `RetryQueue.RunWaitsForWorkers` | retryQueue.go:192-207 | Run has no step to take only while every worker is busy |
| `RetryQueue.TakesLastOfHeap` | retryQueue.go:208-213 | in every run the arena is in heap order when Run takes its last element, which is greatest exactly when it equals the root |
| `RouteTree.LongestCommonPrefix` | gin/tree.go:53-60 | the length of the longest common prefix |
| `RouteTree.LookupIsDenotation` | gin/tree.go:92-101 | going down by first bytes finds exactly the handlers the nodes of the tree, read as spelled paths, denote |
| `RouteTree.BumpSound` | gin/tree.go:103-116 | the swaps of the children and the splice of indices are the same permutation: first bytes stay aligned and distinct, siblings in order of priority |
| `RouteTree.BumpKeepsRoutes` | gin/tree.go:103-116 | and no route changes |
| `RouteTree.BumpRaises` | gin/tree.go:103-116 | the child comes to the place returned with its priority raised by one, and no other child or index changes |
| `RouteTree.CutKeeps` | gin/tree.go:130-147 | splitting an edge keeps all routes and a sound tree |
| `RouteTree.InsertCuts` | gin/tree.go:129-174 | where a path leaves an edge: the upper part, then the lower part with everything it had, its raised priority included, then the new leaf with priority one; a path that ends there gives its handlers to the upper part |
| `RouteTree.NewLeafAdds` | gin/tree.go:167-174 | a new child adds exactly its route |
| `RouteTree.InsertAdds` | gin/tree.go:127-202 | the walk adds exactly the new route, keeps all others and the tree sound; it panics exactly when the path has handlers, which then stay |
| `RouteTree.AddRouteAdds` | gin/tree.go:117-203 | the same for addRoute on a root, the empty one included |
| `RouteTree.RegisterIsFirst` | gin/gin.go:212-223 | after any sequence of registrations a tree knows each path with the handlers first registered for it, and no other path |
| `RouteTree.RegisterNames` | gin/tree.go:139-146 | every node carries the full path that leads to it |
| `RouteTree.RegisterWeighs` | gin/tree.go:103-203 | after any sequence of registrations the priority of the root is their number, and every priority is at least the number of routes at or below its node and at most that of its parent |
| `RouteHeap.Node.IncrementChildPrio` | gin/tree.go:103-116 | the loop of swaps in place computes that permutation |
| `RouteHeap.Node.CutEdge` | gin/tree.go:130-147 | the edge is cut in place |
| `RouteHeap.Node.AddLeaf` | gin/tree.go:167-174 | the new child is added in place and moved up |
| `RouteHeap.Node.Walk` | gin/tree.go:127-202 | the walk in place refines the walk over the tree as a value |
| `RouteHeap.Node.AddRoute` | gin/tree.go:117-203 | addRoute in place adds exactly the route, or panics and changes no route |
| `SpanCache.TrailingZeros` | memoryAlloc/malloc.go:146 | the lowest bit set of the 64-bit cache, or 64 |
| `SpanCache.Span.AlignCache` | memoryAlloc/mcentral.go:77-84 | the shift by freeindex mod 64 makes bit i say whether slot freeindex+i of the block is free |
| `SpanCache.Span.NextFreeFast` | memoryAlloc/malloc.go:145-161 | returns the address of the least free slot before the refill point and keeps the invariant, or returns 0 and changes nothing when there is none |
| `SpanCache.Drain` | memoryAlloc/malloc.go:145-161 | repeated until it gives up it yields exactly the free slots up to the refill point, in increasing order, without overlap and inside the span, each once |
| `SpanCache.FreeSlotsMember` | memoryAlloc/malloc.go:149 | those slots are exactly the free ones below the refill point, so none reaches nelems |
| `SpanCache.FreeSlotsIncrease` | memoryAlloc/malloc.go:155 | and they increase strictly |

## Left out

- Race-detector calls, spinning heuristics, nanosecond timing and queue order of the mutex: whether to
  spin and whether a waiter is starving are free choices, and the semaphore wakes any waiter.
- `RWMutex.TryLock`, whose compare-and-swap test is inverted, and a writer's Unlock, which does not exist.
- `TryAcquire` waiting on its condition: callers wait in the order of a run, whose passes are the steps; one
  that finds no other caller is `SlideWindowsLimiter.TryAcquire`.
- Fairness of the locks: which waiting goroutine gets in, and progress while idle goroutines keep entering.
- BTreeItems.Item: the interface `Item` is a real key and a payload; any countable strict order embeds in
  it. Nil items, which panic in `ReplaceOrInsert`, have no value here.
- B-tree: `Has` and `Len`, `Clear` and `reset`, printing, the mutex of the free list, and slice capacities.
- BTrees.Interleave: the two trees use one free list and are written by turns, not concurrently.
- Reads and `Clone` of a tree that has lost its children to a copy; its writes are modelled.
- Trees that share a free list without being clones follow the same contracts but have no theorem of
  their own.
- Handlers that set the cursor or the chain themselves (`gin/routergroup.go:152-153`), panics inside
  handlers, and everything a handler does besides `Next` and `Abort`.
- Lost or late renewals of the lease lock: a renewal is carried out and answered within `cancelTime`, as the
  bound assumes. Two locks on one machine share an id and are one machine here. `TryLock` called by itself,
  which starts no renewal loop, retries and their pauses, machine ids, and script hashing beyond a command
  being carried out twice.
- RetryQueue: the sleeps of `Run` and of the workers, the copy check, and a worker number below zero.
- Routes with `:` or `*`, their lookup, `countParams`, and the overflow of a route's uint32 priority.
- SpanCache: `nextFreeIndex`, `refill` and the allocation of spans, which are missing or unfinished, and
  the width of addresses.
- jsonUtil.go, container.go, FIFO.go, netpoll/, DHT/, systemCall/, gin/binding/ and the rest of gin and
  memoryAlloc: reflection, system calls and input or output, or code that is incomplete.
