# What the server toolkit's data structures promise, in Dafny

The repository is a C toolkit for evented servers. This project models the parts of it whose
correctness rests on index arithmetic, in-place relinking or interleaving, and proves what each
part is for:

- **Timers** (`BitOps`, `Deadlines`, `TimerLists`, `TimerWheel`, `TooFarWalk`, `TimerRuns`). The hierarchical
  timing wheel - 128 near slots behind a bitmap, 1024 far slots, a too-far list - refines a set of
  deadlines. `Deadlines` is that set and what runs over it satisfy; `TimerWheel.TmDriver` is the
  driver itself, field by field, every method proved against it; `TimerRuns` runs the driver, call by
  call.
- **Red-black tree** (`RbShape`, `RbZipper`, `RbDelete`, `RbSplice`, `RbTree`, `RbWalk`). Nodes
  with parent pointers and a shared sentinel live in a memory map; a position is a zipper that the
  memory holds. Insertion, deletion, walk and search are proved on the pointers.
- **Circular buffer** (`Arith`, `Seqs`, `ChunkIndex`, `ChunkStore`, `FileModel`, `CircularBuf`). The
  rotating table of chunks behaves as a plain file: a byte sequence and a position.
- **Task ring** (`Bytes`, `TaskCodec`, `TaskQueue`, `TaskRing`). The byte ring as a FIFO of whole
  tasks: once as sequential code, once as a producer and a consumer whose single loads, stores and
  byte copies interleave in any way without a lock.
- **Task lifecycle and ids** (`IdSeed`, `NodePool`, `Counting`, `Bridge`). Seeds, node ids and the
  books of the parent side: every accepted task is completed at most once, and the running count of
  each child is exact.
- **Gathered write** (`WritevChain`). What goes on the wire and what stays in the chain, for any
  answers of the kernel.
- **Pool allocator and arrays** (`MemPool`, `PoolArray`). Regions handed out never overlap, also
  when an array grows inside its block.
- **Static hash** (`StaticHash`). The packed bucket memory answers like a map that ignores case.
- **Poll table** (`PollTable`). The dense table of the poll back end and its back-indices.

Properties that the code does not have are stated with the exact condition under which it does:

- A timer registered for 131071 ms or more can be late if polls are more than 65536 ms apart
  (`Deadlines.LateAfterLongGap`, exact condition `Deadlines.ExactIffNoDistantDue`).
- The loop over the too-far list does not end when two timers have exactly 131071 ms to go
  (`TooFarWalk.WalkEnds`), which two registrations and one poll can bring about
  (`TimerRuns.BothAtBoundary`); with even timeouts at an even clock it always ends
  (`TimerRuns.EvenPollEnds`).
- `yf_add_timer` on a timer linked in a near slot or waiting on the expired list, or a too-far
  timeout given to a timer whose head pointer still names a near slot, leaves the bookkeeping wrong
  (`TimerWheel.TmDriver.AddTimer`, an if and only if; `TimerRuns.FiledTwice`). A timer on the expired
  list no longer leads to the timers behind it then: both linkers share memory.
- Deleting the root of a two-node tree leaves the new root with the deleted node as its parent, and
  a walk then returns to that node instead of ending (`RbWalk.DeadRootAfterWalk`;
  `RbTree.RbTree.Delete` says when the field goes stale, `RbWalk.Next` what it does to a walk).
- A file write for which not one byte can be stored moves the position to the front
  (`CircularBuf.CircularBuf.FWrite`), and setting the head of a full table can take a cursor that
  was left behind for one at the end of the file (`CircularBuf.CircularBuf.FHeadSet`); both with an
  if and only if, the second also in a caller's terms (`CircularBuf.AliasedIff`), and each with an
  input (`CircularBuf.WriteMovesBack`, `CircularBuf.DropsTooFar`).
- A push into an empty task ring can be refused, because the capacity macro reads the consumer's
  offset twice (`TaskRing.RefusedExactly`, `TaskRing.RefusedThoughEmpty`).
- A child checks no timeout of a task sent with 2^20 ms or more (`Bridge.ChildTimeout`).
- A result that comes while its task's handler runs, because that handler polls for results itself,
  completes the task twice (`Bridge.ResultInItsHandler`). One that comes while the task's expired timer
  waits, because another callback polls, leaves that timer's handler to be called for a node that is
  freed or reused (`Bridge.ResultBeforeItsTimeout`). These are the only results that break the books
  (`Bridge.Bridge.BeginResult`, an if and only if). Runs without them are counted exactly and complete
  each task at most once (`Bridge.RunBridge`).
- A node pool asked for a multiple of 2^24 nodes a chunk never hands one out
  (`NodePool.HnPool.Alloc`, `NodePool.NoNodesAtAll`).
- An array made for no elements that cannot grow in place hands out memory that is not its own
  (`PoolArray.Array.Push`, an if and only if; `PoolArray.PushesOnNothing`), and a block whose
  end is not aligned passes the space test with a start beyond that end (`MemPool.TestExact`,
  `MemPool.PassesBeyondEnd`).
- Bucket sizes are summed in 16 bits. For names below 256 bytes the test whether they fit is right if
  and only if the room in a bucket is below 65272 (`StaticHash.TestExact`, with the names that break
  it from there on in `StaticHash.WrapsAround`), and what seems to fit gets the memory it needs if and
  only if the room is below that in 16 bits (`StaticHash.LayoutExact`).
- Names without data are counted where the first table size is chosen, so a size that fits can be left
  out (`StaticHash.CountsAbsent`). With data for all names, and at most 10000 buckets or a hundred for
  each name, building fails for lack of a size exactly if none fits (`StaticHash.Init`,
  `StaticHash.FittingTried`).
- No id is given twice until the counter of seeds rolls over. A bound on draws and groups below which
  it does not is stated ahead of a run (`IdSeed.RunSeeds`, `NodePool.RunTwo`, `Bridge.RunBridge`).
- A gathered write does not return if a round starts at a link from which only empty links fit in
  the iovecs. A run does not return if and only if it ends right before such a link with part of the
  limit left, and some answers lead there if and only if such a link is the first one or follows a
  byte, with fewer bytes before it than the limit (`WritevChain.Writer.WritevChain`): a chain without
  a byte, one that ends in an empty link (`WritevChain.EmptyEndTrapped`,
  `WritevChain.SpinsBehindAByte`), or one with too many empty links before a full one
  (`WritevChain.EmptyFrontTrapped`).
- Bytes that a gathered write offered count against the limit whether they were sent or not: the
  count is the bytes sent if and only if no call fell short, and the loop goes on after one that did
  if it was interrupted or an earlier call had sent all (`WritevChain.CountExact`, `WritevChain.Log`).

## Model

| member | source | states |
|---|---|---|
| BitOps.SetBits | src/base_struct/yf_bit_op.c:35-49 | a table row lists exactly the set bits of its value, in ascending order |
| BitOps.BitIndexRow | src/base_struct/yf_bit_op.c:35-49 | the shifting loop fills a row with those positions and then the end mark |
| Deadlines.DistantFarStep | src/mio_driver/event_in/yf_tm_event_in.c:635-673 | every step keeps timers that polls do not look at beyond the too-far period after the current one |
| Deadlines.NoneOverdueStep | src/mio_driver/event_in/yf_tm_event_in.c:382-677 | a step within the 65536 ms gap leaves no filed timer overdue |
| Deadlines.RunDistantFar | src/mio_driver/event_in/yf_tm_event_in.c:635-673 | along every run, whatever its gaps, unexamined timers are that far away |
| Deadlines.RunNoneOverdue | src/mio_driver/event_in/yf_tm_event_in.c:382-677 | along every run with gaps up to 65536 ms no filed timer is overdue |
| Deadlines.PollIsExact | src/mio_driver/event_in/yf_tm_event_in.c:382-677 | on such a run each poll moves to the expired list exactly the timers whose deadline has passed |
| Deadlines.FiresOnceOnTime | src/mio_driver/event_in/yf_tm_event_in.c:382-677 | a timer left alone is either filed and not overdue, or was fired by the first poll that reached its deadline |
| Deadlines.ExactIffNoDistantDue | src/mio_driver/event_in/yf_tm_event_in.c:635-673 | a poll is exact if and only if no unexamined timer is due |
| Deadlines.LateAfterLongGap | src/mio_driver/event_in/yf_tm_event_in.c:635-673 | a timer of 131072 ms polled once after that time is late |
| Deadlines.MissedAtMostOnce | src/mio_driver/event_in/yf_tm_event_in.c:635-673 | a timer one poll misses is fired by the next that reaches a new tick |
| TimerLists.UnlinkListed | src/mio_driver/event_in/yf_tm_event_in.c:156-198 | unlinking keeps every other timer on exactly its one list |
| TimerLists.LinkTailListed | src/mio_driver/event_in/yf_tm_event_in.c:69-73 | so does linking at the tail |
| TimerLists.LinkFrontListed | src/mio_driver/event_in/yf_tm_event_in.c:201-210 | so does pushing on the expired list |
| TimerWheel.FirstSet | src/mio_driver/event_in/yf_tm_event_in.c:318-346 | the halving search with the table finds the lowest set bit |
| TimerWheel.TargetFits | src/mio_driver/event_in/yf_tm_event_in.c:119-152 | the list chosen for a timeout is one whose slot means that deadline, for every clock inside the tick |
| TimerWheel.ShiftedFlags | src/mio_driver/event_in/yf_tm_event_in.c:403-496 | shifting the bitmap by the ticks passed keeps each bit true of the list it now stands for |
| TimerWheel.PollsAll | src/mio_driver/event_in/yf_tm_event_in.c:382-677 | what near, far and too-far work did to each timer adds up to the abstract poll |
| TimerWheel.TmDriver.constructor | src/mio_driver/event_in/yf_tm_event_in.c:29-66 | the zeroed driver is valid and stands for no deadlines |
| TimerWheel.TmDriver.PutFlag | src/mio_driver/event_in/yf_tm_event_in.h:111-112 | exactly the one bit changes |
| TimerWheel.TmDriver.ListAddTimer | src/mio_driver/event_in/yf_tm_event_in.c:69-73 | the timer is linked at the tail of the one list and its head pointer names it |
| TimerWheel.TmDriver.AddNearTimer | src/mio_driver/event_in/yf_tm_event_in.c:75-98 | slot, bit, count and nearest timeout after filing in a near slot; the assert at line 78 is its precondition |
| TimerWheel.TmDriver.ExpireTimer | src/mio_driver/event_in/yf_tm_event_in.c:201-210 | the timer leaves its list for the expired list, count and head pointer following |
| TimerWheel.TmDriver.ListTimeout | src/mio_driver/event_in/yf_tm_event_in.c:269-283 | all timers of one list expire and no others |
| TimerWheel.TmDriver.ExpireBit | src/mio_driver/event_in/yf_tm_event_in.c:292-312 | one set bit's list expires; the assert at line 307 holds |
| TimerWheel.TmDriver.CheckNearTimerList | src/mio_driver/event_in/yf_tm_event_in.c:286-313 | of 16 slots, those with a set bit below the ticks passed expire |
| TimerWheel.TmDriver.ScanHalf | src/mio_driver/event_in/yf_tm_event_in.c:428-452 | the same for a 32-bit half of the bitmap |
| TimerWheel.TmDriver.ScanWord | src/mio_driver/event_in/yf_tm_event_in.c:411-472 | the same for a word of it |
| TimerWheel.TmDriver.CheckNear | src/mio_driver/event_in/yf_tm_event_in.c:403-496 | near timers due within the ticks passed expire, no others; bitmap, roll and count stay right, and the assert at line 489 holds |
| TimerWheel.TmDriver.MoveToNear | src/mio_driver/event_in/yf_tm_event_in.c:525-531 | a far timer goes to the near slot of its deadline |
| TimerWheel.TmDriver.MigrateMid | src/mio_driver/event_in/yf_tm_event_in.c:546-577 | the list of the period just entered is split into expired and near timers |
| TimerWheel.TmDriver.MigrateRoll | src/mio_driver/event_in/yf_tm_event_in.c:579-612 | the list at the new roll index goes to the near slots and is empty |
| TimerWheel.TmDriver.ExpireFarLists | src/mio_driver/event_in/yf_tm_event_in.c:533-544 | lists of periods that have passed expire whole |
| TimerWheel.TmDriver.PollFar | src/mio_driver/event_in/yf_tm_event_in.c:498-612 | the far half of a poll: each far slot again holds exactly one period, the roll slot none |
| TimerWheel.TmDriver.UpdateNearest | src/mio_driver/event_in/yf_tm_event_in.c:316-379 | the nearest timeout bounds every near timer, and the far ones by the two slots it looks at |
| TimerWheel.NearestWakes | src/mio_driver/event_in/yf_tm_event_in.c:316-379 | the nearest timeout is the longest there is, or a filed timer is the reason that it is not |
| TimerWheel.TmDriver.AddTimer | src/mio_driver/event_in/yf_tm_event_in.c:100-153 | the list the timer is filed on; the bookkeeping survives if and only if the timer was neither in a near slot nor on the expired list and a too-far one has no near head pointer; a timer on the expired list ends it |
| TimerWheel.TmDriver.DelTimer | src/mio_driver/event_in/yf_tm_event_in.c:156-198 | the timer leaves its list, count and bit following; false exactly for an unlinked one |
| TimerWheel.TmDriver.Alloc | src/mio_driver/event_in/yf_tm_event_in.c:691-712 | a zeroed timer changes no deadline |
| TimerWheel.TmDriver.Register | src/mio_driver/event_in/yf_tm_event_in.c:735-747 | the driver stays valid and its deadlines gain exactly this one, under the if-and-only-if condition of filing; the nearest timeout is shortened exactly by a shorter one below 256 ms |
| TimerWheel.TmDriver.Unregister | src/mio_driver/event_in/yf_tm_event_in.c:749-758 | the deadline goes, all others stay |
| TimerWheel.TmDriver.PopExpired | src/mio_driver/event_in/yf_tm_event_in.c:213-266 | the callbacks get the expired timers one by one, each once |
| TimerWheel.TmDriver.MigrateTooFar | src/mio_driver/event_in/yf_tm_event_in.c:635-673 | the too-far check files every timer that has come near enough and keeps the others |
| TimerWheel.TmDriver.PollRolls | src/mio_driver/event_in/yf_tm_event_in.c:396-617 | near and far work of a poll in terms of deadlines; the nearest timeout it leaves has its reason |
| TimerWheel.TmDriver.Poll | src/mio_driver/event_in/yf_tm_event_in.c:382-677 | every invariant is kept and the poll is the abstract poll of the deadline set; one that reaches a new tick leaves a nearest timeout no shorter than some filed timer calls for |
| TimerWheel.TmDriver.SleepBound | src/mio_driver/fd_poller/yf_epoll.c:185-186 | the poller's sleep never exceeds the time any filed timer has left |
| TooFarWalk.WalkEnds | src/mio_driver/event_in/yf_tm_event_in.c:640-670 | the loop ends if and only if at most one listed timer has exactly 131071 ms left |
| TooFarWalk.PollEndsIff | src/mio_driver/event_in/yf_tm_event_in.c:640-670 | that is the precondition of Poll, in terms of the driver's lists |
| TimerRuns.EvenPollEnds | src/mio_driver/event_in/yf_tm_event_in.c:640-670 | with even timeouts and an even clock every poll ends |
| TimerRuns.FiledTwice | src/mio_driver/event_in/yf_tm_event_in.c:100-153 | a timer filed twice in a near slot breaks the bookkeeping |
| TimerRuns.BothAtBoundary | src/mio_driver/event_in/yf_tm_event_in.c:640-670 | two timers registered at the start bring about a poll within the gap bound that does not end |
| TimerRuns.Exec | src/mio_driver/event_in/yf_tm_event_in.c:382-758 | one call of the driver is one step of the deadline set, or none for a new timer or one that is not filed; what it does to the nearest timeout |
| TimerRuns.RunDriver | src/mio_driver/event_in/yf_tm_event_in.c:382-758 | the calls on a new driver, up to the first that is not allowed or does not end, are a run of the deadline set whose events are those calls in order; with polls close enough no timer is overdue, with even times no call fails to end; the poller never sleeps past a filed timer, and after a poll not without one as its reason, or for the longest time there is |
| RbShape.PlugOrder | src/base_struct/yf_rbtree.h:60-64 | the in-order sequence around a position |
| RbShape.HeightBound | src/base_struct/yf_rbtree.c:16-92 | a red-black tree of n nodes is at most 2 * log2(n + 1) high |
| RbZipper.RotLeftHeld | src/base_struct/yf_rbtree.c:319-350 | the pointer writes of a left rotation hold the rotated shape and touch no other cell |
| RbZipper.RotRightHeld | src/base_struct/yf_rbtree.c:353-384 | the same for a right rotation |
| RbZipper.InsFlipOk | src/base_struct/yf_rbtree.c:47-53 | a colour flip keeps the loop invariant and the order |
| RbZipper.InsInnerOk | src/base_struct/yf_rbtree.c:55-59 | the inner rotation keeps the loop invariant and the order |
| RbZipper.InsTurnOk | src/base_struct/yf_rbtree.c:61-63 | the outer rotation with recolouring ends with a red-black tree |
| RbZipper.GapDown | src/base_struct/yf_rbtree.c:279-316 | each step down keeps nothing larger before and nothing equal or smaller after the position |
| RbDelete.DelSibRedOk | src/base_struct/yf_rbtree.c:212-218 | a red sibling turned over keeps the fix-up invariant, order and nodes |
| RbDelete.DelSibBlackOk | src/base_struct/yf_rbtree.c:220-224 | recolouring the sibling moves the missing black up |
| RbDelete.DelInnerOk | src/base_struct/yf_rbtree.c:226-232 | turning the sibling keeps the invariant and gives it a red outer child |
| RbDelete.DelOuterOk | src/base_struct/yf_rbtree.c:234-238 | the last turn restores the red-black tree |
| RbSplice.SplicedColours | src/base_struct/yf_rbtree.c:141-202 | taking out a node with at most one child leaves a red-black tree or the fix-up invariant |
| RbSplice.SplicedOrder | src/base_struct/yf_rbtree.c:141-158 | it takes exactly that node out of the in-order sequence |
| RbSplice.ReplacedOrder | src/base_struct/yf_rbtree.c:111-197 | so does putting the least node of the right subtree in the node's place |
| RbSplice.LoneChild | src/base_struct/yf_rbtree.c:128-139 | the root has exactly one child just in trees of two nodes |
| RbTree.RbTree.constructor | src/base_struct/yf_rbtree.h:31-39 | an initialised tree is valid and empty |
| RbTree.RbTree.TurnLeft | src/base_struct/yf_rbtree.c:319-350 | the pointer writes of a left rotation, cell by cell |
| RbTree.RbTree.TurnRight | src/base_struct/yf_rbtree.c:353-384 | those of a right rotation |
| RbTree.RbTree.LeftRotate | src/base_struct/yf_rbtree.c:319-350 | memory then holds the rotated subtree in the same context |
| RbTree.RbTree.RightRotate | src/base_struct/yf_rbtree.c:353-384 | memory then holds the rotated subtree in the same context |
| RbTree.RbTree.FlipColours | src/base_struct/yf_rbtree.c:47-53 | the colour flip on memory, and the grandparent as next position |
| RbTree.RbTree.TurnUncleBlack | src/base_struct/yf_rbtree.c:54-64 | one or two rotations end in a red-black tree with the same order and nodes |
| RbTree.RbTree.InsertFix | src/base_struct/yf_rbtree.c:39-90 | the re-balancing loop ends, in a red-black tree with the same order |
| RbTree.RbTree.FindGap | src/base_struct/yf_rbtree.c:279-316 | the descent finds the gap of the key, or in unique mode an equal key if there is one |
| RbTree.RbTree.Insert | src/base_struct/yf_rbtree.c:16-92 | exactly one node is added, in its gap; every invariant holds; unique mode fails, changing nothing, exactly when an equal key is present |
| RbTree.RbTree.DeleteRound | src/base_struct/yf_rbtree.c:206-273 | one round of the fix-up keeps its invariant, order and nodes and comes closer to the root or ends |
| RbTree.RbTree.DeleteFix | src/base_struct/yf_rbtree.c:204-275 | the fix-up ends, in a red-black tree with the same order |
| RbTree.RbTree.MinBelow | src/base_struct/yf_rbtree.h:60-66 | the node the loop stops at is the first of the subtree's in-order sequence |
| RbTree.RbTree.DeleteLow | src/base_struct/yf_rbtree.c:141-158 | a node with at most one child is taken out |
| RbTree.RbTree.DeleteHigh | src/base_struct/yf_rbtree.c:141-197 | a node with two children is replaced by the least node of its right subtree |
| RbTree.RbTree.Delete | src/base_struct/yf_rbtree.c:95-276 | exactly the given node leaves the in-order sequence, every invariant holds, and the root's parent goes stale exactly when a two-node tree loses its root |
| RbWalk.Next | src/base_struct/yf_rbtree.h:79-107 | the in-order successor; after the last node nil exactly when the root's parent is null |
| RbWalk.Walk | src/base_struct/yf_rbtree.h:156-158 | with a null root parent the walk visits every node once, in sorted order |
| RbWalk.Find | src/base_struct/yf_rbtree.h:141-154 | the leftmost node with an equal key, NULL exactly when there is none |
| RbWalk.DeadRootAfterWalk | src/base_struct/yf_rbtree.c:128-139 | after a two-node tree loses its root, the successor of the node left is the deleted one |
| ChunkIndex.RestSplit | src/base_struct/yf_circular_buf.h:22-23 | chunk count and remainder of a byte count describe the same bytes |
| ChunkIndex.FrontMoves | src/base_struct/yf_circular_buf.h:95-105 | advancing moves by exactly that many bytes and never respells backwards |
| ChunkIndex.BackMoves | src/base_struct/yf_circular_buf.h:84-93 | so does going back |
| ChunkIndex.Distances | src/base_struct/yf_circular_buf.h:65-78 | the size macros give distances counted from the head chunk |
| ChunkIndex.NormalSame | src/base_struct/yf_circular_buf.c:36-40 | respelling a chunk's end as the next one's start does not move a place that bytes follow |
| ChunkIndex.NormalWraps | src/base_struct/yf_circular_buf.c:36-40 | at the end of the table it wraps to the head chunk |
| ChunkStore.Piece | src/base_struct/yf_circular_buf.c:414-458 | a chunk's bytes are the bytes of the file at that place |
| ChunkStore.PutPiece | src/base_struct/yf_circular_buf.c:482-515 | a copy into a chunk overwrites those bytes and no others |
| ChunkStore.Turned | src/base_struct/yf_circular_buf.c:291-316 | the store seen from another head chunk is the same bytes, turned |
| CircularBuf.Sizes | src/base_struct/yf_circular_buf.h:133-139 | fsize, ftell and the room macros compute file size, position and room |
| CircularBuf.HeadAhead | src/base_struct/yf_circular_buf.c:302-314 | which cursors the check after a head move takes for lying outside the file |
| CircularBuf.CircularBuf.constructor | src/base_struct/yf_circular_buf.c:4-13 | an empty file |
| CircularBuf.CircularBuf.Reorder | src/base_struct/yf_circular_buf.c:108-126 | turning the table changes neither file nor position nor room |
| FileModel.EnlargedEnough | src/base_struct/yf_circular_buf.c:142-153 | chunks added just as long as they are needed and can be had make room for what all of them would |
| CircularBuf.CircularBuf.Enlarge | src/base_struct/yf_circular_buf.c:130-159 | it returns exactly the new room; chunks are added until there is room or no more can be had, none beyond need; neither file nor position changes |
| CircularBuf.CircularBuf.FRead | src/base_struct/yf_circular_buf.c:404-460 | exactly the file's bytes at the position, which moves unless peeked |
| CircularBuf.CircularBuf.WriteTail | src/base_struct/yf_circular_buf.c:162-167 | the tail moves to the end of the write if that is beyond it |
| CircularBuf.CircularBuf.WriteSome | src/base_struct/yf_circular_buf.c:480-515 | at least one byte that fits: the write of a plain file |
| CircularBuf.CircularBuf.FWrite | src/base_struct/yf_circular_buf.c:463-518 | it takes all the bytes that find room when all chunks come that can; it is a file's write if and only if it takes a byte, or none was given, or the table is empty |
| CircularBuf.CircularBuf.FSeek | src/base_struct/yf_circular_buf.c:354-400 | the position moves to the target exactly when that is inside the file |
| CircularBuf.CircularBuf.FTruncate | src/base_struct/yf_circular_buf.c:319-351 | shortening keeps the prefix and clamps the position; lengthening succeeds exactly when there is room with all chunks that can come |
| CircularBuf.CircularBuf.FHeadSet | src/base_struct/yf_circular_buf.c:291-316 | a prefix is dropped as from a plain file, if and only if the call is not the aliased one; the chunks left behind |
| CircularBuf.AliasedIff | src/base_struct/yf_circular_buf.c:309-310 | the aliased call is the one on a file that fills every chunk, with the position at its start, dropping more than a chunk |
| CircularBuf.DropsTooFar | src/base_struct/yf_circular_buf.c:291-316 | two full chunks, position 0, three of four bytes dropped: the position is at the end, a file's would be at the start |
| CircularBuf.WriteMovesBack | src/base_struct/yf_circular_buf.c:482-490 | a byte that finds no room at the end of two full chunks: the position is back at the start |
| CircularBuf.CircularBuf.Shrink | src/base_struct/yf_circular_buf.c:232-285 | frees exactly the chunks it may, none with a byte of the file; its asserts hold |
| CircularBuf.CircularBuf.WriteAlloc | src/base_struct/yf_circular_buf.c:171-214 | reserves consecutive chunks from the position on for all bytes that there can be room for, moving nothing |
| CircularBuf.CircularBuf.WriteBytes | src/base_struct/yf_circular_buf.c:217-226 | tail and position after the commit; its assert holds |
| CircularBuf.CircularBuf.ReserveFillCommit | src/base_struct/yf_circular_buf.c:171-226 | reserving, filling and committing is the write of the same bytes |
| CircularBuf.CircularBuf.Exec | src/base_struct/yf_circular_buf.c:291-518 | one operation is a plain file's if and only if its guard holds; writes take and truncations get all there can be room for |
| CircularBuf.CircularBuf.Run | src/base_struct/yf_circular_buf.c:291-518 | any run of guarded operations is a run of a plain file in a table of chunks, whose room decides what each write takes |
| TaskCodec.Get32Put32 | src/bridge/bridge_in/yf_bridge_task.c:14-22 | a 32-bit header field reads back as written |
| TaskCodec.DecodeEncode | src/bridge/bridge_in/yf_bridge_task.c:14-22 | a task reads back as written, its length from its header |
| TaskCodec.BufSizeIs | src/bridge/bridge_in/yf_bridge_task.h:46-51 | the two size macros are complementary for any offsets |
| TaskQueue.TaskQueue.BufAdd | src/bridge/bridge_in/yf_bridge_task.c:125-151 | the bytes are in the ring from the offset on, nothing else changed |
| TaskQueue.TaskQueue.BufGet | src/bridge/bridge_in/yf_bridge_task.c:154-192 | exactly the ring's bytes, or a refusal when fewer are there |
| TaskQueue.TaskQueue.Push | src/bridge/bridge_in/yf_bridge_task.c:50-85 | the task is queued last exactly when strictly more bytes are free than it takes |
| TaskQueue.TaskQueue.Pop | src/bridge/bridge_in/yf_bridge_task.c:88-122 | the oldest task, whole; again exactly when there is none; a buffer too small consumes nothing |
| TaskRing.NeverOverwrites | src/bridge/bridge_in/yf_bridge_task.c:125-151 | the producer never writes a cell that holds an unread byte |
| TaskRing.StepInv | src/bridge/bridge_in/yf_bridge_task.c:50-122 | every step of either side keeps the invariant |
| TaskRing.FinishTakes | src/bridge/bridge_in/yf_bridge_task.c:107-117 | what a pop hands over is the oldest task sent and not popped, whole |
| TaskRing.FifoAlways | src/bridge/bridge_in/yf_bridge_thr.c:69-91 | in every interleaving the tasks popped are the first tasks sent, in order |
| TaskRing.FifoFromStart | src/bridge/bridge_in/yf_bridge_task.c:50-192 | from the empty ring on, tasks come out as they went in, and the ring is empty exactly when all that was sent has come out |
| TaskRing.PopFailsOnly | src/bridge/bridge_in/yf_bridge_task.c:94-105 | a pop finds nothing exactly when nothing waits, and otherwise fails only for a small buffer |
| TaskRing.RefusedExactly | src/bridge/bridge_in/yf_bridge_task.h:46-48 | when a push is refused, given the two reads of the consumer's offset |
| TaskRing.RefusedThoughEmpty | src/bridge/bridge_in/yf_bridge_task.h:46-48 | an interleaving in which the ring is empty and the push is refused |
| TaskRing.PopCompletes | src/bridge/bridge_in/yf_bridge_task.c:88-122 | a pop completes by the consumer's own steps wherever the producer is |
| TaskRing.PushCompletes | src/bridge/bridge_in/yf_bridge_task.c:50-85 | a push with room for its task completes by the producer's own steps wherever the consumer is |
| IdSeed.SeedSpace.constructor | src/base_struct/yf_id_seed.c:7-9 | no seed given yet |
| IdSeed.SeedSpace.GroupUpdate | src/base_struct/yf_id_seed.c:13-32 | the next slices of the counter; when it rolls over, and where it restarts |
| IdSeed.SeedSpace.GroupInit | src/base_struct/yf_id_seed.c:35-71 | a new group with as few slices as hold the size, disjoint from all others; how far the counter moves, and when it rolls over |
| IdSeed.SeedSpace.Alloc | src/base_struct/yf_id_seed.c:74-94 | the group's next seed, the one after it next time, or new slices after the last; when the counter rolls over; before that no seed is given twice, by whatever groups |
| IdSeed.DrewOk | src/base_struct/yf_id_seed.c:74-94 | a draw keeps the counter where seeds given and seeds left take it, and all that groups still have unused |
| IdSeed.RunSeeds | src/base_struct/yf_id_seed.c:35-94 | any use of a new counter: operation by operation what is given; while the demand leaves it below its limit it does not roll over and all seeds are different |
| NodePool.IdParts | src/base_struct/yf_node_pool.c:102-130 | chunk, offset and seed read back from an id |
| NodePool.NewPoolOk | src/base_struct/yf_node_pool.c:25-49 | a new pool has every node free, once |
| NodePool.TakeNodeOk | src/base_struct/yf_node_pool.c:52-76 | taking a node keeps free list, marks and count in step |
| NodePool.GiveNodeOk | src/base_struct/yf_node_pool.c:79-99 | so does giving it back |
| NodePool.OneOwner | src/base_struct/yf_node_pool.c:113-130 | an id whose place exists resolves exactly as long as it is the id of a node in use |
| NodePool.HnPool.constructor | src/base_struct/yf_node_pool.c:185-220 | a table of one chunk, of as many nodes as 24 bits keep of the number asked for |
| NodePool.HnPool.TakeFrom | src/base_struct/yf_node_pool.c:232-238 | a new id with a seed no pool was given before, for a free node of the chunk; no other node changes; one seed is drawn |
| NodePool.HnPool.AddChunk | src/base_struct/yf_node_pool.c:261-271 | one more chunk changes no id and takes one slice of the counter |
| NodePool.HnPool.Alloc | src/base_struct/yf_node_pool.c:223-281 | NULL exactly when every chunk is full and none with a node can be added; otherwise a free node gets a new id with a seed no pool was given before and no other node changes; a chunk is added exactly if all are full; old ids resolve as before, whatever the sort did |
| NodePool.HnPool.Free | src/base_struct/yf_node_pool.c:284-297 | by id or by node, exactly that id stops resolving, all others are unharmed, a second free by id does nothing |
| NodePool.HnPool.Id2Node | src/base_struct/yf_node_pool.c:299-305 | the node of an id in use, NULL for every other id whose place exists |
| NodePool.NoNodesAtAll | src/base_struct/yf_node_pool.c:185-281 | 2^24 nodes a chunk are none: the table gives out nothing |
| NodePool.OthersDraw | src/base_struct/yf_id_seed.c:7-9 | a pool stays valid and its ids as they are, whatever others draw from the counter |
| NodePool.ExecTwo | src/base_struct/yf_node_pool.c:221-297 | one draw or return, and what it adds for its user: nothing exactly when the allocator answers NULL; the other pool and user stay as they are |
| NodePool.RunTwo | src/base_struct/yf_id_seed.c:74-94 | two pools used in any order, each operation doing what it is for: until the counter rolls over no id twice, no seed shared between them, and exactly the ids not given back resolve; it does not roll over while operations and chunks leave it below its limit |
| Bridge.ChildTimeout | src/bridge/bridge_in/yf_bridge_in.c:230 | the child's timeout is the one asked for if and only if that is below 2^20 ms |
| Bridge.BegunOk | src/bridge/bridge_in/yf_bridge_in.c:558-579 | counts, and the books of ids, stay right if and only if the completion had not begun before |
| Bridge.EndedOk | src/bridge/bridge_in/yf_bridge_in.c:581 | giving the node back keeps them right |
| Bridge.Bridge.constructor | src/bridge/bridge_in/yf_bridge_in.c:43-105 | no tasks, all counts zero |
| Bridge.Bridge.IdleChild | src/bridge/bridge_in/yf_bridge_in.c:598-613 | the first child with the fewest running tasks |
| Bridge.Bridge.SendTask | src/bridge/bridge_in/yf_bridge_in.c:145-264 | when a task is refused, leaving no trace; otherwise a free node with a new id, one more running task on the right child, a timer a second later than what the child is told, and the contexts, nodes and ids of all other tasks as they were |
| Bridge.Bridge.TimerExpires | src/mio_driver/event_in/yf_tm_event_in.c:201-210 | a task's timer waits for its handler to be called; nothing else changes |
| Bridge.Bridge.BeginResult | src/bridge/bridge_in/yf_bridge_in.c:548-579 | a late or duplicate result is dropped; a live task is completed and counted off; the books stay right if and only if neither its handler is running nor its expired timer waits |
| Bridge.ResultInItsHandler | src/bridge/bridge_in/yf_bridge_in.c:548-579 | a second result seen within the handler of the first completes the task twice |
| Bridge.ResultBeforeItsTimeout | src/bridge/bridge_in/yf_bridge_in.c:548-579 | a result for a task whose expired timer waits completes it, and the timer still waits |
| Bridge.Bridge.BeginTimeout | src/bridge/bridge_in/yf_bridge_in.c:286-305 | the handler of a waiting timer completes its task, which was not completed before and whose result handler is not running |
| Bridge.Bridge.EndCallback | src/bridge/bridge_in/yf_bridge_in.c:306-310 | the node goes back and its id resolves no more |
| Bridge.Bridge.QuietIff | src/bridge/bridge_in/yf_bridge_in.c:246-560 | all counts are zero exactly when every accepted task has been completed |
| Bridge.Exec | src/bridge/bridge_in/yf_bridge_in.c:145-595 | what one event does to the books: a refused send nothing, a result or timeout of a live task completes it and counts it off its own child, a return frees its node |
| Bridge.RunBridge | src/bridge/bridge_in/yf_bridge_in.c:145-595 | whole runs of sends, expiries, results, timeouts and returns, up to the first that is not allowed: every event does to ids, completions and counts what it is for; the ids are exactly those accepted, each completed at most once while there are fewer events than the seed counter has left, and the counts are exact |
| WritevChain.Writer.Offer | src/mio_driver/yf_send_recv.c:337-350 | joined or not, the iovecs denote the bytes offered so far and these |
| WritevChain.Writer.Gather | src/mio_driver/yf_send_recv.c:326-354 | the iovecs denote exactly the next bytes of the chain, up to the limit; all there is as far as the iovecs go; none are offered exactly from a stuck link, and none beyond one |
| WritevChain.Writer.Consume | src/mio_driver/yf_send_recv.c:392-412 | exactly the bytes sent leave the chain, and the place it stops at: right behind the last byte sent, or inside its link |
| WritevChain.Writer.Round | src/mio_driver/yf_send_recv.c:319-412 | bytes on the wire and bytes in the chain add up to the same whole; what is offered, and where the round stops |
| WritevChain.Writer.WritevChain | src/mio_driver/yf_send_recv.c:282-432 | the calls and answers, round by round: what each round offers and takes off the chain, and the call it ends with; conservation, count and limit; exactly which runs do not return, exactly which chains have such a run; exactly when the count is the bytes sent |
| WritevChain.LimitIs | src/mio_driver/yf_send_recv.c:302-307 | a limit of 0 or beyond the largest one stands for that |
| WritevChain.CountExact | src/mio_driver/yf_send_recv.c:349-387 | bytes offered and bytes sent add up to the same if and only if no call fell short |
| WritevChain.FullNotTrapped | src/mio_driver/yf_send_recv.c:326-354 | a chain without an empty link always returns |
| WritevChain.NoByteStuck | src/mio_driver/yf_send_recv.c:326-430 | one without a byte never does, whatever the answers |
| WritevChain.EmptyEndTrapped | src/mio_driver/yf_send_recv.c:392-430 | one that ends in an empty link, with less than the limit before it, does not for some answers |
| WritevChain.EmptyFrontTrapped | src/mio_driver/yf_send_recv.c:326-354 | one with as many separate empty links in front as there are iovecs never does, whatever the answers |
| WritevChain.SpinsBehindAByte | src/mio_driver/yf_send_recv.c:392-430 | one byte and an empty link: the byte is sent and the call does not return |
| MemPool.TestExact | src/base_struct/yf_mem_pool.c:145-152 | the unsigned space test keeps a region inside its block if and only if the aligned start is not beyond the end |
| MemPool.PassesBeyondEnd | src/base_struct/yf_mem_pool.c:145-152 | eight bytes pass the test with three left in the block |
| MemPool.HandedApart | src/base_struct/yf_mem_pool.c:134-278 | any two regions handed out are apart |
| MemPool.Pool.constructor | src/base_struct/yf_mem_pool.c:10-38 | one block, nothing handed out; the largest size taken from blocks |
| MemPool.Pool.AllocBlock | src/base_struct/yf_mem_pool.c:194-234 | an aligned region at the start of a new block, failures counted; everything handed out before still is, and apart from it |
| MemPool.Pool.CountFailures | src/base_struct/yf_mem_pool.c:219-231 | one failure more on every block from the current one on but the last, and where the search starts from then on |
| MemPool.Pool.AllocSmall | src/base_struct/yf_mem_pool.c:140-158 | the next region of the first block from the current one on with room; a new block exactly if there is none, nothing only if that cannot be had; apart from all others |
| MemPool.Pool.FreeSlot | src/base_struct/yf_mem_pool.c:250-264 | an emptied entry among the first five, if there is one |
| MemPool.Pool.AllocLarge | src/base_struct/yf_mem_pool.c:237-278 | the system's area, entered in the list, apart from everything handed out; none exactly if there is none or its entry finds no memory |
| MemPool.Pool.Alloc | src/base_struct/yf_mem_pool.c:134-191 | one of the two, by size; exactly when there is nothing to hand out |
| MemPool.Pool.Free | src/base_struct/yf_mem_pool.c:308-327 | exactly the large area at the address is freed, and its entry emptied; anything else is declined |
| MemPool.Pool.Reset | src/base_struct/yf_mem_pool.c:100-131 | nothing is handed out any more and every block is empty |
| MemPool.Pool.GrowLast | src/base_struct/yf_array.c:63-71 | the last region of the first block grows, apart from all others |
| MemPool.Pool.GiveBack | src/base_struct/yf_array.c:37-45 | the last region of the first block goes, no other does, and the block is filled up to its start |
| PoolArray.Array.constructor | src/base_struct/yf_array.h:24-40 | an array on memory of its own |
| PoolArray.Array.Move | src/base_struct/yf_array.c:73-84 | the array's bytes are in new memory, apart from everything else; it fails exactly if the pool has none |
| PoolArray.Array.Extend | src/base_struct/yf_array.c:63-72 | room for more elements where the array is |
| PoolArray.Array.Push | src/base_struct/yf_array.c:49-91 | elements keep their bytes, other regions stay apart and other memory as it is; inside its own memory if and only if it was made for some elements or can grow in place; NULL exactly if it is full and neither it nor the pool has room |
| PoolArray.PushesOnNothing | src/base_struct/yf_array.c:49-91 | the first push on an array made for no elements hands out memory it does not have |
| PoolArray.Array.PushN | src/base_struct/yf_array.c:94-140 | several elements are added, bytes kept, other regions apart and other memory as it is, always inside its own memory; NULL exactly if it is full and neither it nor the pool has room |
| PoolArray.Array.Destroy | src/base_struct/yf_array.c:30-46 | elements and header are given back exactly as far as they end the first block; no other region is |
| StaticHash.AlignShift | src/base_struct/yf_hash.c:35-44 | alignment behind an aligned offset |
| StaticHash.BucketSuffices | src/base_struct/yf_hash.c:10-15 | the bucket of the hash value has the first match if any bucket has |
| StaticHash.ElementRead | src/base_struct/yf_hash.c:17-32 | what the reader finds where an element was written |
| StaticHash.Onward | src/base_struct/yf_hash.c:34-36 | the reader's jump is the writer's element size |
| StaticHash.Find | src/base_struct/yf_hash.c:4-40 | the value of the first name equal but for case, NULL if there is none |
| StaticHash.TolowerMeets | src/base_struct/yf_hash.c:26-32 | lower case is equal exactly for characters that are equal but for case |
| StaticHash.HashKeyIs | src/base_struct/yf_hash.c:231-244 | the hash value is the characters as digits to base 31, modulo a machine word |
| StaticHash.HashKeyLc | src/base_struct/yf_hash.c:247-260 | the hash value of the lower-case name |
| StaticHash.Get | src/base_struct/yf_hash.c:4-40 | lookup under the name's own hash value |
| StaticHash.TryFit | src/base_struct/yf_hash.c:85-107 | whether every 16-bit sum of a table size stays within the room |
| StaticHash.SeemsRight | src/base_struct/yf_hash.c:94-101 | where no sum can wrap, that is whether every bucket fits |
| StaticHash.TestExact | src/base_struct/yf_hash.c:94-101 | the test is right for all names below 256 bytes if and only if the room is below 65272 |
| StaticHash.WrapsAround | src/base_struct/yf_hash.c:94-101 | names that seem to fit in every room from 65272 on and fit in none |
| StaticHash.LayoutExact | src/base_struct/yf_hash.c:83-150 | what seems to fit is laid out without a wrap, whatever the names, if and only if the room is below 65272 in 16 bits |
| StaticHash.FindSize | src/base_struct/yf_hash.c:83-110 | the first size that seems to fit, or none does |
| StaticHash.Demands | src/base_struct/yf_hash.c:123-137 | what each bucket takes, in 16 bits |
| StaticHash.FittingTried | src/base_struct/yf_hash.c:75-81 | a size in which all names fit has room for 16 bytes a name, so it is not below the first size tried |
| StaticHash.LayOut | src/base_struct/yf_hash.c:139-185 | buckets one behind the other, aligned, each with room for its names and its end, if and only if no size wraps |
| StaticHash.Fill | src/base_struct/yf_hash.c:187-220 | every bucket holds exactly its names' elements and the NULL that ends them |
| StaticHash.Init | src/base_struct/yf_hash.c:46-228 | on success the hash is built from exactly the names present, in the first size tried that seems to fit; it fails exactly without memory, for a name too long, or if none of the sizes tried seems to fit - with all names present and a table not crowded, if no size fits; sizes do not wrap for rooms below 65272 |
| StaticHash.CountsAbsent | src/base_struct/yf_hash.c:75-86 | names without data are counted: a size that fits is not tried |
| PollTable.RoomLeft | src/mio_driver/fd_poller/yf_poll.c:107-115 | a descriptor without an entry finds room in the table |
| PollTable.SwappedOk | src/mio_driver/fd_poller/yf_poll.c:165-189 | moving the last entry keeps table and back-indices consistent |
| PollTable.Poller.constructor | src/mio_driver/fd_poller/yf_poll.c:42-61 | an empty table |
| PollTable.Poller.Activate | src/mio_driver/fd_poller/yf_poll.c:80-131 | exactly this side becomes polled; one entry more exactly if the descriptor had none |
| PollTable.Poller.Deactivate | src/mio_driver/fd_poller/yf_poll.c:134-202 | exactly this side stops being polled; one entry less exactly if it was the last side |
| PollTable.Poller.Del | src/mio_driver/fd_poller/yf_poll.c:69-77 | both sides stop being polled |

## Left out

- System calls, sockets, channels, processes, threads, signals, logging and time sources: clock values, kernel answers, allocator results and lock outcomes are parameters.
- Sizes and counters are unbounded integers: 32-bit wrap-around of clock milliseconds, buffer sizes beyond 2^31 and the 16-bit chunk numbers are not modelled.
- Timers: clock reset (yf_on_time_reset), driver use while the tick lags the clock, the free list of timer events and the statistics counters.
- TimerWheel.TmDriver.PopExpired: callbacks are opaque and do not cancel a timer that is already on the expired list (the TODO at src/mio_driver/event_in/yf_tm_event_in.c:219).
- TimerWheel.TmDriver.AddTimer: what the expired list leads to behind a timer filed while it waits there, the list it was filed on, is not modelled.
- TimerRuns.RunDriver: a timer is registered only where TimerWheel.TmDriver.Register keeps the bookkeeping, and callbacks make their calls between deliveries.
- TimerWheel: bit words are sequences of booleans, so the machine's shifts and masks are modelled by what they do to single bits.
- TimerLists: lists are sequences with a map from heads; the next and prev pointers of the intrusive lists are not modelled.
- yf_get_set_bits and its 64-entry output array: only the 16-bit table rows the timers use are modelled.
- RbTree.RbTree: keys are integers and the comparison is `<` on them; a comparator that is not a strict weak order is not modelled.
- RbWalk.Next: a deleted node keeps the contents that deletion gave it until it is inserted again; what a caller does with its memory in between is not modelled.
- yf_rbtree_max, yf_rbtree_prev and the reverse walk.
- CircularBuf.CircularBuf.FRead: a contiguous read hands out a pointer into the chunk; that later writes show through it is not modelled.
- yf_cb_space_read, which repeats FRead at the level of chunk pointers, and the memory pool behind read copies and pointer lists.
- TaskCodec: the header is magic, length and time as 32-bit fields followed by the task info as opaque bytes; the compiler's padding counts as part of those.
- TaskRing: steps are sequentially consistent; weaker memory orderings are not modelled.
- NodePool.HnPool.Alloc: what yf_sort makes of the chunk table is a parameter constrained to be a reordering with the most free nodes first; which of several chunks with free nodes gives one is not stated.
- NodePool.HnPool.constructor: there is at least one chunk; yf_hnpool_create takes zero and then writes behind its memory.
- NodePool.HnPool.Free: an id may name a chunk or an offset that does not exist, which the code does not check; only ids whose place exists are given back here.
- NodePool.HnPool.Id2Node: an id may name a chunk or an offset that does not exist, which the code does not check; only ids whose place exists are resolved here.
- Bridge.ResultBeforeItsTimeout: the handler called later for the freed or reused node, which first meets the assert at src/base_struct/yf_node_pool.c:105, is not modelled.
- Bridge.Bridge.EndCallback: a waiting timer whose task is gone still has its handler called; what that does to the freed or reused node is not modelled.
- Bridge.Bridge.BeginResult: a result arrives on the queue of the child its task was sent to, as the assert at src/bridge/bridge_in/yf_bridge_in.c:564 demands; the queues' contents are the subject of TaskQueue and TaskRing.
- WritevChain.Writer.WritevChain: a writev that is offered no bytes answers 0.
- PollTable: yf_poll_dispatch and the ready lists.
- MemPool.Pool.constructor: block sizes are multiples of the alignment and hold the headers, as the system's answers are aligned and unclaimed memory; destroying a pool, cleanup handlers and yf_pmemalign are not modelled.
- PoolArray.Array: what users write to their elements and to other regions is not modelled.
- StaticHash.Init: what is written where, once a bucket has less memory than it takes, is not modelled; the run ends with Overrun. The bytes between elements are written as padding. A line of the cache has less than 2^16 bytes.
- StaticHash.TolowerMeets: tolower is that of the C locale.
- StaticHash.Find: names are below 256 bytes, as elt->len has 8 bits.
- yf_hash_keys_array_init and its companions, the slab pool, buffer helpers and the select and epoll back ends.
