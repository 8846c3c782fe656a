# hixo: a verified model

hixo is a small event server in C. This project models its hand-written data structures and the
life of its connections in Dafny, and proves what they are for.

| files | what they model |
|---|---|
| `RbModel`, `RbBalance`, `RbTree`, `RbWalk`, `RbUse` | the intrusive red-black tree with parent pointers (`src/rbtree.c`, `include/rbtree.h`) and the search, insertion and deletion built on it (`tests/rbtree_test.c`) |
| `IntrusiveList`, `SlotPool`, `WorkerState`, `ListenerWindow`, `EventRun`, `Worker` | one worker: its slot pool, connection list, posted list, interest list, listeners, power and event loop (`src/modules/event_core_module.c`, `src/modules/epoll_module.c`, `src/resource.c`, `src/socket.c`, `include/list.h`) |
| `AcceptLock`, `AcceptRuns` | many workers around the shared accept lock (`src/modules/epoll_module.c`, `include/spinlock.h`) |
| `Bits`, `BitMemory`, `SlubModel`, `Slub` | the bit helpers and the slub allocator (`src/slub.c`) |
| `CircularList`, `Buffers`, `Echo` | the circular lists and the echo application's recycling of buffers (`include/list.h`, `src/modules/echo.c`) |
| `Decimal` | decimal printing and parsing (`include/common.h`, `src/adv_string.c`) |
| `Sequences`, `Powers` | sequences without repetitions, powers of two and binary numbers |

`dafny verify dfyconfig.toml` checks everything.

## How to read it

**The tree.** `Root` is `struct rb_root`; its nodes are heap objects with the fields of `struct rb_node`
(parent and colour are two fields here, one packed word in C). The proofs look at the heap through a
map from nodes to their four fields, and at the tree through a zipper: `At(c, t)` says that the heap holds
the subtree `t` in the hole of the context `c`. A rotation, a splice or a colour write is
proved once, as what it does to the cells (`Turned`, `Unhooked`, `Swapped`), and what the cells then
stand for is a lemma about trees. `InsertReady(c, t)` is the invariant of the insertion loop: the
only possible faults are the red root of `t` under a red parent, or a red root. `EraseReady(c, t)` is that
of the erasure loop: `t` is one black node shorter than its place demands. The ghost field `turns` counts rotations.

**The worker.** List words are addresses (`Addr`) in a map, the way `list_t` is a word that holds the address of
the next one, and `Store.AddNode` and `Store.RmNode` are `add_node` and `rm_node`. `State` is what a worker's memory
holds, as a value. `Lists(st)` says that the three lists are in order and share no words, `Agree(st, limit, x)` that
pool, connections, listeners, interest list and counters fit together, where `x` is a slot that a handler
has taken and not yet placed. Every handler is proved to lead from one `State` to another that is written out. The
kernel's answers, the configuration and the applications' reactions are parameters, so that the theorems hold
for all of them. Slots carry the ownership bit of a debug build.

**The accept lock.** `AcceptLock` looks at a worker as `epoll_process_events` does: a phase, whether it holds the lock,
a mark and a registration for each listener. Runs of the whole system interleave the steps of all workers at will
(`Run`); a worker's own calls are sequences of the same steps (`Solo`, `After`), and `AcceptLock.OwnRun` shows that no
interleaving makes a difference to them. `AcceptRuns` keeps a log of what each worker goes through in a run (complete
calls, and part of one), which carries the results about calls over to the whole system. `ListenerWindow` shows that the
two loops of `Worker` are these steps, so that what is proved of marks and registrations holds for the runs of the event
loop.

**Runs of the event loop.** `EventRun` says what a run is: stops between passes (`Stop`, `Course`), each pass leading
from one to the next (`Passes`: the call of `epoll_process_events`, what it posts, and the turns of the loop over the
posted list), and one of three ends (`Ended`). `Worker.EventLoop` is proved to go through such a run, and `Worker.Serve`
puts set-up and loop together.

**In other words.** States are related by functions and predicates (`Gone`, `Accepts`, `Handled`, `Waited`, ...). What
they come to, slot by slot and flag by flag, is stated once more without them, in the contracts of the operations and
in the lemmas whose names end in `Means`.

**The kernel.** `epoll_wait` reports only sockets that are in the interest list, with the
stale bit they were registered with, each at most once (`Reported`). `Report` cuts an arbitrary
sequence of readiness changes down to that, and `ReportAll` shows that no such report is lost. Closing a descriptor
takes it out of the interest list whatever `EPOLL_CTL_DEL` answered.

**Asserts.** `rm_node` and the other effects inside `assert` are modelled as executed (the C code is only correct without
`NDEBUG`), and each of these asserts is a proof obligation here: in `alloc_resource`, in `hixo_handle_close`, at the
end of every turn of `event_loop`, on the posted list before a wait, and at the end of `echo_handle_disconnect`. Two
asserts can fail, and their failure is an outcome: the one on a listener's mark (`Aborts`) and the last one of
`slub_alloc` (`AssertFails`).

**Where code and promise part.** A call of `epoll_process_events` leaves a listener marked exactly when an addition
fails and a deletion fails before that listener (`AcceptLock.MarkLeft`), and a call runs into the assert exactly when
it gets the lock and comes to a marked listener (`AcceptLock.RunsIntoExactly`). Over any sequence of calls of a worker:
no call can run into the assert if and only if no earlier call had a failed addition preceded by a failed deletion
(`AcceptLock.NoCallRunsInto`; a concrete case is `AcceptLock.LeftoverMark`). In the whole system, for any number of
workers and any interleaving, the assert holds everywhere as long as no completed call was of that kind
(`AcceptRuns.AssertEverywhere`), and can fail once one was (`AcceptRuns.AssertFailsNext`). `slub_alloc` looks at the first non-zero
byte of a class's bitmap only, so that with more than seven blocks it can take a block it then does not see, and its
last assert fails; exactly when is `SlubModel.AssertExactly`, a concrete case `Slub.NineBlocks`. With a number of blocks
that is a multiple of eight the last eight blocks are never handed out: addresses lie below them (`Slub.AllocAll`), and
with eight blocks every request is answered NULL (`Slub.EightBlocks`). The region that `slub_format` lays out holds
header, maps and the blocks that are handed out, apart from each other, with 8, 16 or 24 blocks only
(`SlubModel.LayoutExactly`); objects of the last block of a smaller region lie behind it
(`SlubModel.LastBlockOutside`; with two blocks of memory the third object of 2048 bytes does, `Slub.TwoBlocks`). `itostr` stays within its `n` bytes, terminator included, exactly when the number is not
negative or has at most `n - 2` digits (`Decimal.ShownFits`); -7 with `n` = 2 takes three bytes (`Decimal.OneTooMany`).

## Model

| member | source | states |
|---|---|---|
| RbTree.Root.RotateLeft | src/rbtree.c:25-46 | the heap then holds the rotated subtree in the same place, parent links and root pointer included, and the in-order sequence is unchanged |
| RbTree.Root.RotateRight | src/rbtree.c:48-69 | the mirror image |
| RbModel.TurnZip | src/rbtree.c:25-69 | whatever the subtree and its surroundings, the seven pointer writes of a rotation turn a consistently linked tree into the consistently linked rotated tree |
| RbTree.Root.SetColor | include/rbtree.h:119-129 | a colour write recolours the node and touches no link |
| RbTree.Root.InsertInnerLeft | src/rbtree.c:93-100 | the rotation at the parent keeps the loop invariant and moves the fault to the outer side |
| RbTree.Root.InsertOuterLeft | src/rbtree.c:102-104 | two colour writes and a rotation at the grandparent keep the loop invariant and leave a black parent |
| RbTree.Root.InsertStepLeft | src/rbtree.c:79-104 | one turn of the insertion loop keeps the invariant and the order, comes nearer to the root, and if it rotates (at most twice) leaves the loop nothing to do |
| RbTree.Root.InsertStepRight | src/rbtree.c:105-130 | the same for a parent on the right |
| RbTree.Root.InsertColor | src/rbtree.c:71-134 | from a tree whose only fault is the newly linked red node to a valid red-black tree with the same in-order sequence, with at most two rotations |
| RbBalance.InsertRecolour | src/rbtree.c:82-91 | with a red uncle the three colour writes move the possible fault two levels up and keep all black heights |
| RbTree.Root.LinkNode | include/rbtree.h:152-160 | the new node hangs in the given empty place, red and without children, and nothing else changes |
| RbTree.Root.EraseRedLeft | src/rbtree.c:145-153 | with a red sibling the rotation leaves a red parent and a black sibling, and the shortage where it was |
| RbTree.Root.EraseInnerLeft | src/rbtree.c:163-169 | the far child of the sibling is red afterwards, and the invariant holds |
| RbTree.Root.EraseOuterLeft | src/rbtree.c:170-176 | the last rotation makes the whole tree red-black again |
| RbBalance.EraseRecolour | src/rbtree.c:154-160 | painting the sibling red moves the shortage to the parent |
| RbTree.Root.EraseStepLeft | src/rbtree.c:144-177 | one turn of the repair loop: either the tree is red-black (after at most three rotations), or the shortage is one level up, or a single rotation has left a red parent, which ends the loop |
| RbTree.Root.EraseStepRight | src/rbtree.c:178-211 | the same for a hole on the right |
| RbTree.Root.EraseColor | src/rbtree.c:136-215 | from a tree that is one black short in one place to a valid red-black tree with the same in-order sequence, with at most three rotations |
| RbTree.Root.Splice | src/rbtree.c:264-277 | a node with at most one child gives its place to that child, all links consistent |
| RbTree.Root.Successor | src/rbtree.c:230-232 | the leftmost node of the right subtree |
| RbTree.Root.SwapIn | src/rbtree.c:228-259 | the successor stands in the erased node's place with its colour and children, whether it was its child or further down, and the answer names the place it left, its child and its colour |
| RbTree.Root.EraseOne | src/rbtree.c:222-225 | a node with at most one child is out of the tree, and the hole is known |
| RbTree.Root.EraseTwo | src/rbtree.c:226-262 | the same for a node with two children |
| RbTree.Root.Erase | src/rbtree.c:217-282 | exactly the given node leaves: the in-order sequence is the old one without it, the tree is a valid red-black tree, and there were at most three rotations |
| RbTree.Root.ReplaceNode | src/rbtree.c:363-385 | the tree is the old one with the new node for the victim: same shape, colours and order, all links consistent |
| RbTree.Root.NodeMeans | include/rbtree.h:100-130 | what a valid tree means for the pointers and colours of each node: children point back, a red node has no red child, the root is black and has no parent |
| RbBalance.RenamedRedBlack | src/rbtree.c:363-385 | such an exchange changes neither black heights nor colours |
| RbBalance.HeightBound | tests/rbtree_test.c:15-24 | in a red-black tree of n nodes no way down is longer than 2 log2(n + 1) |
| RbWalk.First | src/rbtree.c:287-297 | the first node in order, or null for the empty tree |
| RbWalk.Last | src/rbtree.c:299-309 | the last node in order, or null |
| RbWalk.Next | src/rbtree.c:311-337 | the node right after the given one in order, or null; null for a node that is its own parent |
| RbWalk.ClimbNext | src/rbtree.c:333-336 | the climb ends at the nearest ancestor that comes later, or null |
| RbWalk.Prev | src/rbtree.c:339-361 | the node right before the given one in order, or null |
| RbWalk.NextThenPrev | src/rbtree.c:311-361 | `rb_next` and then `rb_prev` end where they started, unless the node is the last |
| RbWalk.PrevThenNext | src/rbtree.c:311-361 | `rb_prev` and then `rb_next` end where they started, unless the node is the first |
| RbWalk.WalkForward | tests/rbtree_test.c:65-73 | the loop ends, having shown every node exactly once in order |
| RbWalk.WalkBackward | src/rbtree.c:299-361 | the loop over `rb_last` and `rb_prev` shows every node exactly once, backwards |
| RbUse.MySearch | tests/rbtree_test.c:11-27 | finds a node with the number if and only if there is one, in at most 2 log2(n + 1) turns |
| RbUse.FindPlace | tests/rbtree_test.c:31-44 | the descent finds the number, or the one empty place where it belongs |
| RbUse.MyInsert | tests/rbtree_test.c:29-51 | -1 and no change at all when the number is there, even if it is the very node; else exactly the node is added and the tree stays sorted and red-black |
| RbUse.MyDelete | tests/rbtree_test.c:53-63 | exactly the number is gone, and the tree stays sorted and red-black |
| RbUse.Run | tests/rbtree_test.c:11-63 | every run from the empty tree gives the answers that a finite set of integers gives, and ends in a sorted red-black tree of that set |
| IntrusiveList.Store.AddNode | include/list.h:42-52 | the list leads through the new element first and then through the old ones; no other word changes |
| IntrusiveList.Store.RmNode | include/list.h:54-75 | true exactly when the element was in the list; the list is the old one without it, its word is cleared, no foreign word changes |
| IntrusiveList.ChainCut | include/list.h:62-72 | unhooking element k by its predecessor's word leaves the chain without it |
| IntrusiveList.ChainPush | include/list.h:47-49 | the two writes put the element in front |
| SlotPool.Pool.CreateResource | src/resource.c:19-69 | succeeds exactly on a request for some elements of some size, for a pool that does not exist yet, with memory there; then all slots are zeroed and free |
| SlotPool.Pool.FillFree | src/resource.c:58-64 | the free list leads through all slots, the last one first |
| SlotPool.Pool.Alloc | src/resource.c:82-104 | NULL exactly when as many slots are outstanding as there are; else a slot that was in nobody's hands, marked as owned and added to the outstanding ones, and nothing else changes |
| SlotPool.Pool.Free | src/resource.c:106-137 | the slot is free again, unmarked and no longer outstanding; a null or foreign element changes nothing |
| SlotPool.Pool.Destroy | src/resource.c:139-149 | no slots, nothing free, nothing used |
| SlotPool.UsedCounts | src/resource.c:95-136 | `m_used` is the number of slots whose ownership bit is set |
| SlotPool.TakeOk | src/resource.c:90-101 | after the removal the ownership bits are again set exactly on the slots outside the free list |
| WorkerState.DrawnAgrees | src/modules/event_core_module.c:106-110 | a slot from the pool is in no list, no listener and not watched, and the accounts balance with it in hand |
| WorkerState.JoinedAgrees | src/modules/event_core_module.c:169-176 | listing it, watching it and taking one unit of power keeps the accounts |
| WorkerState.RefusedAgrees | src/modules/event_core_module.c:115-173 | giving it back keeps them too |
| WorkerState.Closed | src/modules/event_core_module.c:183-196 | closing a connection keeps them: it leaves list, pool account and interest list, and power rises by one |
| WorkerState.PowerBound | src/hixo.c:366-367 | in every such state power plus connections is max - max/8, so power is never below -(max/8) minus the listeners that failed to open |
| WorkerState.AdmittedTwice | src/modules/event_core_module.c:103-178 | what several turns of the accept loop admit adds up |
| WorkerState.FilledOpens | src/modules/event_core_module.c:103-178 | an answer that opens a connection fills the next free slot and leaves those filled before as they are |
| WorkerState.AcceptsMeans | src/modules/event_core_module.c:103-178 | after a run of the accept loop the k-th slot off the free list holds descriptor and close flag of the k-th answer that brought a socket which could be watched, and is watched under its stale bit; ECONNABORTED is passed over, EAGAIN and errors end the loop |
| WorkerState.HandledMeans | src/modules/event_core_module.c:71-82 | handling a connection closes it if its close flag is up once it has been read, and clears both readiness flags; else the flags are what the handlers that ran have left; a listener accepts if it is readable |
| WorkerState.ListenersNext | src/modules/event_core_module.c:316-357 | one configured server more: if it opens it is the next listener, with its descriptor |
| WorkerState.AllShow | src/modules/epoll_module.c:217-237 | after a batch every socket named is readable and writable as its event says, and posted if it is one or the other; other slots are unchanged |
| WorkerState.HandledKept | src/modules/event_core_module.c:71-82 | handling one socket leaves every other socket in use as it is, and the socket survives exactly when nobody asked for it to be closed |
| WorkerState.PostedDone | src/modules/event_core_module.c:83-86 | after the handlers the first posted element is taken off and the rest are sockets in use |
| WorkerState.PassedInOrder | src/modules/event_core_module.c:64-87 | a pass takes the posted sockets in the order of the list, each of them once |
| WorkerState.ReportAll | src/modules/epoll_module.c:180-183 | every report that the kernel may make comes through |
| WorkerState.EventNext | src/modules/epoll_module.c:217-237 | an event names a watched socket, under its stale bit, that is not posted yet |
| ListenerWindow.OpeningNext | src/modules/epoll_module.c:166-176 | one turn of the adding loop: it goes on without a mark, ends at a failure, which it marks, or ends in the assert at a mark |
| ListenerWindow.OpenMeans | src/modules/epoll_module.c:166-176 | the adding loop, listener by listener: when it fails, which are watched and which are marked |
| ListenerWindow.CloseMeans | src/modules/epoll_module.c:187-199 | the deleting loop, listener by listener: which marks and which registrations are gone |
| ListenerWindow.BothLoops | src/modules/epoll_module.c:165-199 | the two loops around the wait make of marks and registrations what one call of `AcceptLock` makes of them |
| ListenerWindow.CallIsSolo | src/modules/epoll_module.c:152-246 | a worker's marks and registrations after a call are those of `AcceptLock`'s steps with the same outcomes |
| ListenerWindow.TurnWatches | src/modules/event_core_module.c:66-86 | handling a posted socket leaves the registrations of the listeners as they were |
| EventRun.WaitedMeans | src/modules/epoll_module.c:159-199 | without the power or the lock nothing is added or deleted; with them the listeners before the first that cannot be added are watched during the wait; other registrations stay |
| EventRun.AbortsMeans | src/modules/epoll_module.c:159-168 | a call runs into the assert if and only if it has the power, gets the lock and comes to a marked listener with all additions before having succeeded |
| EventRun.ReportedHandled | src/modules/event_core_module.c:54-91 | what the kernel reports in a pass is handled in that pass: every socket named is readable and writable as its event says, and posted if it is one or the other; one turn for every posted socket, in the order of the list |
| EventRun.CourseSeat | src/modules/event_core_module.c:54-91 | at every stop of a run marks and registrations are those after the calls so far |
| EventRun.NoMarkNoAbort | src/modules/event_core_module.c:54-91 | a run that starts without marks, and none of whose calls has a failed addition preceded by a failed deletion, does not end in the assert and leaves no mark |
| EventRun.AnswersDecide | src/modules/event_core_module.c:54-91 | the same as a condition on the kernel's answers alone |
| Worker.Worker.HandleClose | src/modules/event_core_module.c:183-196 | the slot is free, both readiness flags are cleared and its other fields kept; it is out of connections and interest list, one unit of power is back; all other slots are unchanged; its assert holds |
| Worker.Worker.Settle | src/modules/event_core_module.c:112-177 | what each answer of `accept` and of the watch makes of the slot in hand |
| Worker.Worker.AcceptOne | src/modules/event_core_module.c:103-178 | one turn: a connection in the first free slot, with the descriptor accepted and its stale bit flipped, watched and paid for, or none; the loop goes on unless the pool is empty, EAGAIN or an error |
| Worker.Worker.HandleAccept | src/modules/event_core_module.c:93-181 | which answers open connections, how many are asked for and what ends the loop; the k-th slot taken holds the descriptor and the close flag of the k-th opening answer and is watched; everything that was there is untouched; accounts hold |
| Worker.Worker.Listen | src/modules/event_core_module.c:316-357 | one configured server becomes the last listener, in the first free slot with its descriptor, or nothing changes |
| Worker.Worker.Withdraw | src/modules/event_core_module.c:360-372 | without a listener the pool is destroyed again |
| Worker.Worker.InitMaster | src/modules/event_core_module.c:263-383 | succeeds exactly when memory is there and a listener opens; then the listeners are the servers that opened, in order, each with its descriptor, and listeners, connections and used slots are equally many; no listener is marked, and the worker is ready for its loop; if it fails there is no pool |
| Worker.Worker.Read | src/modules/event_core_module.c:71-73 | what the read handler does, by kind of socket |
| Worker.Worker.Write | src/modules/event_core_module.c:80-82 | the write handler runs on sockets in use only |
| Worker.Worker.HandlersOf | src/modules/event_core_module.c:71-82 | read, close, write: what becomes of the slot, flag by flag, of the interest list and of the power; a listener accepts |
| Worker.Worker.HandleOne | src/modules/event_core_module.c:66-86 | one turn of the posted loop: the saved next element is still the head of the rest, and the assert on `rm_node` holds |
| Worker.Worker.HandlePosted | src/modules/event_core_module.c:64-87 | every posted socket is handled exactly once, in order, although slots are freed and reused on the way, and the posted list is empty at the end |
| Worker.Worker.OpenWindow | src/modules/epoll_module.c:165-176 | it fails exactly when it comes to a marked listener with all additions before having succeeded; else exactly the listeners before the first failure are added and exactly the failed one is marked; other registrations stay |
| Worker.Worker.CloseWindow | src/modules/epoll_module.c:186-199 | whatever the deletions answer: up to the first listener that has no mark and cannot be deleted, marks are cleared and unmarked listeners deleted; other registrations stay |
| Worker.Worker.Wait | src/modules/epoll_module.c:165-199 | what is watched during the wait, with and without the lock; marks and registrations afterwards; the posted list is empty at the wait |
| Worker.Worker.TakeEvents | src/modules/epoll_module.c:217-237 | after a batch of events every socket named is readable on input or hang-up and writable on output or hang-up, and posted if it is one or the other; other slots are unchanged; the tests for a closed or reused socket never reject one |
| Worker.Worker.ProcessEvents | src/modules/epoll_module.c:152-246 | from an idle worker: what is watched during the wait, and then posted, given exactly; without power or lock the listeners are left alone; lock released; marks and registrations as `AcceptLock` has them; an error if and only if the wait failed, the failing assert if and only if a marked listener was come to |
| Worker.Worker.Pass | src/modules/event_core_module.c:54-87 | one pass: what was watched, what was posted, and the turns that handled it lead from the stop before to the stop after; it aborts exactly when the call runs into the assert on a mark |
| Worker.Worker.EventLoop | src/modules/event_core_module.c:49-91 | every run, whatever the kernel answers, goes pass by pass through the given rounds and ends for one of three reasons: they are over, the last wait failed, or the next call runs into the assert; at every stop nothing is posted, the accounts agree and the debt is bounded; if in no round a failed addition is preceded by a failed deletion it does not abort |
| Worker.Serve | src/hixo.c:323-369 | set-up and loop together, from a new worker: the same for every configuration and every sequence of rounds |
| AcceptLock.OneHolder | include/spinlock.h:25-42 | for any number of workers and any interleaving, whatever the kernel answers, at most one worker holds the lock, and the lock word says whether one does |
| AcceptLock.OnlyTheHolderListens | src/modules/epoll_module.c:159-243 | as long as no deletion fails: only the holder has listeners registered, no two workers have, marks are gone outside the call, and the assert on the mark holds |
| AcceptLock.OwnRun | src/modules/epoll_module.c:152-246 | in every interleaving a worker ends up where its own steps alone lead it, so that what is proved of a worker's calls holds in every run |
| AcceptLock.CallExactly | src/modules/epoll_module.c:159-243 | one call in closed form, from any marks and registrations and for any answers |
| AcceptLock.MarkLeft | src/modules/epoll_module.c:166-199 | from a state without marks, whatever is registered, a call leaves a mark if and only if an addition fails and a deletion fails before it |
| AcceptLock.CallClean | src/modules/epoll_module.c:159-243 | from a clean state a call leaves neither mark nor registration if and only if no deletion fails before the first listener that could not be added |
| AcceptLock.CallsClean | src/modules/epoll_module.c:159-243 | over any sequence of calls from a clean state: between the calls there is never a mark or a registration if and only if in no call a deletion fails before the first listener that could not be added |
| AcceptLock.RunsIntoExactly | src/modules/epoll_module.c:159-176 | a call runs into the assert if and only if it gets the lock and a marked listener lies no further than the first addition that fails |
| AcceptLock.NoCallRunsInto | src/modules/epoll_module.c:159-199 | over any sequence of calls: no call can run into the assert, whatever the kernel answers it, if and only if no earlier call had a failed addition preceded by a failed deletion |
| AcceptLock.LeftoverMark | src/modules/epoll_module.c:167-198 | a concrete sequence of answers after which the assert fails |
| AcceptRuns.LogKeeps | src/modules/epoll_module.c:152-246 | whatever steps a worker takes, it is where its completed calls, and the steps of the present one, lead it |
| AcceptRuns.AssertEverywhere | src/modules/epoll_module.c:159-199 | for any number of workers and any interleaving: if no completed call of any worker had a failed addition preceded by a failed deletion, the assert holds for every worker |
| AcceptRuns.AssertFailsNext | src/modules/epoll_module.c:159-199 | after the first such call of a worker, with the lock free, there is a continuation in which its assert fails |
| AcceptLock.AddingEnds | src/modules/epoll_module.c:166-176 | where the adding loop stops, and what is registered and marked then |
| AcceptLock.DeletingEnds | src/modules/epoll_module.c:187-199 | where the deleting loop stops, and which marks and registrations are gone then |
| Powers.BinaryShift | src/slub.c:86-117 | moving binary digits up by n and dropping those that leave the field multiplies by 2^n modulo the field |
| Bits.ShiftedValue | src/slub.c:86-117 | bytes whose bits have moved up by n stand for V * 2^n mod 2^(8 len), for every n |
| BitMemory.BothMoved | src/slub.c:102-113 | moving bytes and then bits gives the shifted bytes, and nothing outside changes |
| BitMemory.BytesShifted | src/slub.c:102-113 | the bytes so computed are the run with every bit n places up |
| BitMemory.MemShiftLeft | src/slub.c:86-117 | the value theorem for the loops in place: V becomes V * 2^n mod 2^(8 len), and bytes outside the run stay |
| BitMemory.MemIsFilled | src/slub.c:119-144 | word by word and byte by byte, true exactly when all bytes are 0xFF, that is when a search for a clear bit finds none |
| BitMemory.MemSetBit | src/slub.c:146-161 | exactly the named bit changes |
| BitMemory.MemDetectBit | src/slub.c:164-195 | the least matching bit, or -1 when there is none |
| BitMemory.FirstUnique | src/slub.c:164-195 | such an answer is unique |
| BitMemory.TakeClear | src/slub.c:277-320 | the loop of both index allocators: finds what a search for a clear bit finds and sets exactly that bit |
| SlubModel.Disjoint | src/slub.c:352-353 | two distinct objects that have been handed out have no byte in common |
| SlubModel.NullExactly | src/slub.c:365-404 | for any number of blocks, while the blocks of each class lie in one bitmap byte: NULL means exactly that every block that can be handed out has an owner and every block of the class is full |
| SlubModel.RegularKept | src/slub.c:365-404 | every call whose assert holds keeps the blocks of each class in one byte and the owned blocks a prefix |
| SlubModel.OneByteComplete | src/slub.c:365-404 | with at most seven blocks, from any owners: the assert never fails, and NULL means exactly that nothing is left |
| SlubModel.LayoutExactly | src/slub.c:205-234 | the maps end before the first block up to 30 blocks; the blocks handed out lie in the region when it has 32 blocks or their number is a multiple of eight; both hold with 8, 16 or 24 blocks only |
| SlubModel.SizesAre | src/slub.c:24-41 | the classes are the powers of two from 8 to 2048, and their objects fill a block |
| SlubModel.LastBlockOutside | src/slub.c:213-234 | in a region of less than 32 blocks an object of the last block begins behind the region's last whole block |
| SlubModel.AssertExactly | src/slub.c:394-400 | for any number of blocks, when a block is left: the assert fails if and only if no block the scan reaches has room and the class owns a block in an earlier bitmap byte |
| SlubModel.FreshServes | src/slub.c:399-400 | a fresh block yields its first object |
| SlubModel.UseTaken | src/slub.c:309-320 | the bit set stands for an object that was free, and the use maps record one object more |
| SlubModel.BlockTaken | src/slub.c:277-289 | the two bits set record the new owner of the first unowned block |
| SlubModel.ClearedOne | src/slub.c:248-255 | the shift of one use map leaves exactly as many clear bits as there are objects, and other use maps as they were |
| Slub.Slub.FormatUsemaps | src/slub.c:242-256 | in every block and class exactly the low bits that stand for objects are clear |
| Slub.Slub.FormatBitmaps | src/slub.c:236-240 | no block has an owner; the bits of the top bitmap that stand for no usable block are set |
| Slub.Slub.IndexFromUsemap | src/slub.c:294-323 | the least free object of the block, which is now taken, or -1 exactly when the block is full |
| Slub.Slub.IndexFromTop | src/slub.c:267-292 | the least block without an owner, which the class now owns, or -1 when there is none |
| Slub.Slub.FromExisted | src/slub.c:325-363 | the first free object among the blocks the scan reaches, at its address, or NULL exactly when these are full |
| Slub.Slub.Alloc | src/slub.c:365-404 | the outcome in all cases: object from a block of the class, from a fresh block, NULL, or the failing assert, and exactly when the assert fails; the smallest class that is large enough; the address is block times 4096 plus index times size; owners and objects afterwards; as long as no assert has failed, NULL exactly when nothing is left; with at most seven blocks no failing assert |
| Slub.Format | src/slub.c:197-265 | fails below 8192 bytes; else a block for every 4096 bytes, but at most 31; then nothing is owned and nothing handed out |
| Slub.AllocAll | src/slub.c:365-404 | any sequence of requests, step by step: each answer is that of one allocation from the heap before to the heap after; every object lies in one of the blocks that are handed out, is as long as asked for, and overlaps no other; until an assert fails, and with at most seven blocks none does, NULL is answered exactly when nothing is left for the class |
| Slub.EightBlocks | src/slub.c:236-240 | with eight blocks every request of any sequence is answered NULL |
| Slub.TwoBlocks | src/slub.c:205-234 | two blocks of memory: the third object of 2048 bytes begins where the region ends |
| Slub.NineBlocks | src/slub.c:394-400 | nine blocks and seventeen requests of 2048 bytes: the assert fails |
| CircularList.RingAddTail | include/list.h:101-116 | four writes put the node at the end, both directions consistent |
| CircularList.RingRemove | include/list.h:169-176 | two writes take any node out |
| CircularList.RingMerge | include/list.h:153-167 | the body's nodes follow the head's, and the body is empty |
| CircularList.Lists.Empty | include/list.h:118-123 | true exactly for the empty list |
| CircularList.Lists.Merge | include/list.h:153-167 | the same for the whole function, empty bodies included; other lists are untouched |
| Buffers.ReadContents | src/modules/echo.c:117-136 | after a scatter read and the spreading of its length the buffers stand for exactly the bytes read |
| Buffers.SizedContents | src/modules/echo.c:121-136 | spreading a length over buffers that hold the bytes makes them stand for the bytes |
| Echo.Connection.SpreadSizes | src/modules/echo.c:122-136 | the loop over the list computes that spreading |
| Echo.Connection.Draw | src/modules/echo.c:101-112 | an old buffer if there is one, else a new one; never one that is in another queue |
| Echo.Connection.Receive | src/modules/echo.c:117-141 | the read queue grows by exactly the bytes read |
| Echo.Connection.FreeTmp | src/modules/echo.c:143-151 | exactly the buffers of the last read are freed |
| Echo.Connection.ReadEnd | src/modules/echo.c:143-169 | the flags after the end of the stream, a reset, or another error |
| Echo.Connection.HandleRead | src/modules/echo.c:76-181 | for every script of read results the read queue stands for the bytes received in this call, in order; the number of buffers afterwards is initial + created - freed, and given exactly |
| Echo.Connection.HandleDisconnect | src/modules/echo.c:188-206 | all buffers are freed, the queue is empty, the assert holds |
| Decimal.AbsValue | include/common.h:91-101 | the absolute value, and -1 exactly for the minimum |
| Decimal.CountPlaces | include/common.h:103-153 | the binary search gives the length of the decimal numeral, the sign included, for every machine integer |
| Decimal.PlacesMeasure | include/common.h:106-150 | between two entries of the table numerals have one length |
| Decimal.Reverse | include/common.h:155-164 | the range is reversed in place, the rest stays |
| Decimal.StrReverse | src/adv_string.c:24-49 | the same, and -1 with no change for a range that is none |
| Decimal.PutDigits | include/common.h:185-190 | the digits come out lowest first, as many as there is room for |
| Decimal.Wtoa | include/common.h:166-201 | NULL and no change when the places do not fit, else the numeral of the number (the minimum without a terminator) |
| Decimal.ItoStr | src/adv_string.c:51-86 | -1 without room for a digit, else the sign and the last digits that fit, terminated |
| Decimal.EnoughRoom | src/adv_string.c:76-81 | with room for all digits that is the numeral, the same as `wtoa` prints |
| Decimal.ShownFits | src/adv_string.c:69-82 | what is written, terminator included, fits in `n` bytes if and only if the number is not negative or has at most n - 2 digits |
| Decimal.OneTooMany | src/adv_string.c:69-82 | -7 and n = 2: three bytes are written |
| Decimal.StrToI | src/adv_string.c:88-119 | the number a string of digits stands for, or -1 with the variable untouched |
| Decimal.StaysInRange | src/adv_string.c:106-113 | no value of the loop overflows if and only if the number that the digits at the front stand for does not |
| Decimal.RoundTrip | src/adv_string.c:106-116 | parsing the numeral of any machine integer but the minimum gives it back, and no intermediate value overflows |
| Decimal.PrintAndParse | include/common.h:103-201 | `wtoa` with the places of `count_places`, then `strtoi`: the number comes back |

## Left out

- System calls, signals, process creation and restart, module registration and configuration parsing: parameters or not modelled. A run is one `event_loop` after initialisation.
- `src/modules/simple_http.c` and the sending of replies (`test_syn_send`): network output. Of the echo reply only its last effect, the close flag, is modelled.
- In `hixo_handle_accept` the choice of the application by port (`getsockname`) is not modelled, nor the branch for a failing `hixo_create_socket`, which never fails. The application's handlers change only the flags of their own socket, as both applications do.
- AcceptLock.OnlyTheHolderListens: claims exclusive registration of listeners only. `accept` itself is called after the lock has been released.
- Slub.Slub.Alloc: addresses are counted from the first block, and the two kinds of bitmaps are two arrays of their own, so that what happens to objects and maps where the layout lets them overlap (`SlubModel.LayoutExactly`) is not modelled.
- `slub_free` has no body, and `slub_format` returns an unset value on success; neither is modelled.
- `hixo_expand_buffer`, `include/bitmap.h`, the memory pool and table macros, dumps and getters: nothing hard to state.
- Decimal.ItoStr: the minimum integer is excluded (its negation overflows in C).
- Decimal.StrToI: works on unbounded integers; C computes the same as long as nothing overflows, which is `Decimal.StaysInRange`, and what it does beyond is undefined.
- Pointers are object references or addresses of words; the packing of parent and colour, and of listener and tag, into one word is two fields here. Bytes compare with `~0` as signed characters do on x86.
