# hare, modelled and proved

hare is an event-driven TCP library. This project models four parts of it and proves what they are for.

1. **The chained ring buffer** (`hare/net/buffer.cc`). Bytes live in blocks on a circular doubly linked list with a
   `read` and a `write` cursor. The model keeps the list on the heap: nodes, links, cursors, the node count and the
   in-place block memory. Every operation is proved to do to the list what it would do to one plain byte queue, and
   `BufferRuns.Run` says so for every sequence of operations. `Kmp` and `Iterators` hold the substring search.
2. **Calendar and time zones** (`hare/base/time`). Day numbers, epoch seconds and local time by a table of transitions,
   with the round trips in both directions and the exact condition where one of them fails.
3. **Queue, worker pool and logger shutdown** (`queue.h`, `thread_pool.h`, `async_logger.cc`). The ring-array queue
   refines a bounded first-in first-out queue; the logger with its workers is a step system, one step per section under
   the queue's lock, with safety, progress and the one deadlock it has.
4. **Cycle, reactors and sessions** (`hare/base/io`, `hare/net/tcp/session.cc`). Registration over three tables, the
   poll table with its swap-removal, one-shot timers, and the life cycle of a session with its output buffer.

| file | module | holds |
|---|---|---|
| `Flattening.dfy` | `Flattening` | joining the views of a sequence of blocks |
| `Cache.dfy` | `Blocks` | one block, as a value and as memory written in place |
| `Chain.dfy` | `Chain` | nodes, rings and the link surgery |
| `Layout.dfy` | `Layouts` | what a ring holds and offers, independent of the heap |
| `CacheList.dfy` | `CacheLists` | the list of blocks |
| `Buffer.dfy`, `BufferRuns.dfy` | `Buffers`, `BufferRuns` | the byte buffer, and whole runs of two of them |
| `HeadLoss.dfy` | `HeadLoss` | a run after which a buffer has lost the first node of its list |
| `BufferAsWritten.dfy` | `BufferAsWritten` | three places where the text and the design differ, taken literally |
| `Kmp.dfy`, `Iterators.dfy` | `Kmp`, `Iterators` | substring search, and the iterator it runs on |
| `Calendar.dfy`, `EpochTime.dfy`, `Timezones.dfy` | the same | calendar, epoch seconds, local time |
| `Queues.dfy`, `LoggerShutdown.dfy`, `LoggerOrder.dfy` | the same | queues, the logger's shutdown protocol, and the order of its messages |
| `EventBits.dfy`, `PollTable.dfy`, `Registration.dfy`, `Timers.dfy` | the same | event masks, reactors, registration, timers |
| `Session.dfy` | `Session` | the TCP session |

## Where the text and the design differ

- `Cache::Realign` records the length as the capacity, `Buffer::Remove` copies from the caller's memory, and the growth
  loop of `FastExpand` never counts down. The classes model the design; `BufferAsWritten` takes each one literally and
  proves exactly when it agrees with the design.
- `get_next` goes one letter past the pattern and so writes one entry past its table, for every pattern but the empty
  one. `Kmp.GetNext` has that entry and is given the letter found there; the entries that `Find` reads are the right
  ones whatever it is.
- The iterator stops once more at each block boundary, where it finds whatever lies past the block's last byte.
  `Iterators.WalkMeets` says what it meets, `Iterators.Find` what the search does on any number of blocks, and
  `Iterators.SearchFails` a buffer on which that goes wrong. On one block it is the search of the content (`Kmp.Find`).
  A match that ends with the text and no match give the same position.
- Draining a chain of more than 16 nodes may free the node `head`, and splicing drops the spare nodes of the list spliced
  onto, which `node_size_` goes on counting. `Layouts.StaysExactly` and `Buffers.Buffer.Append` say exactly which, and
  `HeadLoss.LosesHead` is a run that loses it. The operations that start over from `head` require it on the ring.
- The timer heap has the latest stamp on top. `Timers.Cycle.NotifyTimer` says what that means: timers are triggered all
  together once the latest stamp has come, and none before.
- The entry popped is the one on top after a task has been called, which is that of a timer it has armed for later
  if it has. Such a timer stays in the table without a heap entry and is never triggered: `Timers.RoundLeaves` says
  exactly when that happens, and `Timers.LosesTimer` is an input.
- `HandleEvent` calls a task only if the event is tied. Nobody can tie a timer made by `RunAfter`, so its
  task is never called, in any run (`Timers.Run`); `Timers.DueTask` is an input. "Triggered" below is the call of
  `HandleEvent`, "called" that of its task.
- A session is destroyed by its close, but the user or a queued task may have it still. An event further back in the
  batch then calls a session that is closed; if nobody has it, the event calls nothing. `Session.Happen` has the exact
  condition.
- A session's buffer answers an error as 0 bytes, so the error branches of `HandleRead` and `HandleWrite` on a negative
  count are never taken: a failed read closes the session, and a failed write counts as a write of nothing.
- A repeated hour at the first or at the last transition of a time zone table is not resolved; `Timezones.InstantBack`
  has the exact condition.

## Model

| member | source | states |
|---|---|---|
| Blocks.RoundUp | hare/net/buffer.cc:52-62 | the least power-of-two multiple of the minimum block that holds the request; the request itself from half the maximum size on |
| Blocks.Block.Drain | hare/net/buffer-inl.h:65 | drops exactly the first bytes and keeps the writeable region |
| Blocks.Block.Add | hare/net/buffer-inl.h:66 | moves bytes from the writeable to the readable region |
| Blocks.Block.Realign | hare/net/buffer.cc:84-95 | as designed: room is made in place and the content never changes |
| Blocks.Cache.constructor | hare/net/buffer-inl.h:34-36 | a block of the given capacity holding nothing |
| Blocks.Cache.Clear | hare/net/buffer-inl.h:60-63 | the memory written in place has the value of the cleared block |
| Blocks.Cache.Drain | hare/net/buffer-inl.h:65 | the same for draining |
| Blocks.Cache.Add | hare/net/buffer-inl.h:66 | the same for adding |
| Blocks.Cache.Append | include/hare/base/util/buffer.h:134-149 | the copy loop appends exactly the given bytes |
| Blocks.Cache.MoveToFront | hare/net/buffer.cc:84-95 | the overlapping move brings the content to the front and disturbs nothing behind it |
| Blocks.Cache.Realign | hare/net/buffer.cc:84-95 | succeeds exactly when there is room in place, and then has the value of the realigned block |
| Chain.LinkLast | hare/net/buffer-inl.h:157-163 | the ring with one node more at its end is a ring, `next` and `prev` mutually inverse |
| Chain.UnlinkSecond | hare/net/buffer.cc:240-248 | the ring without its second node is a ring |
| Chain.Splice | hare/net/buffer.cc:119-159 | two paths of different nodes become one ring, and what is left of the second ring is a ring |
| Layouts.RestKeeps | hare/net/buffer.cc:236-249 | a drain takes a node off the ring exactly if the list counts more than 16 nodes and the node lies strictly between the old and the new `read` |
| Layouts.StaysExactly | hare/net/buffer.cc:213-250 | a node is on the ring after a drain of `n` bytes if and only if the list counts at most 16 nodes, or it is the first, or it is not one of those the drain empties |
| Layouts.Layout.SpareBlocksEmpty | hare/net/buffer-inl.h:82-89 | blocks after `write` hold nothing readable |
| CacheLists.CacheList.constructor | hare/net/buffer-inl.h:104-108 | a ring of one node, holding nothing |
| CacheLists.CacheList.GetNextWrite | hare/net/buffer-inl.h:151-168 | where `write` goes and what the blocks are then, in each of the four cases; it is at an empty block, the content stays and no node is lost |
| CacheLists.CacheList.CheckSize | hare/net/buffer.cc:97-106 | exactly which block is used, realigned or new; afterwards the write block has the room asked for; the content stays |
| CacheLists.CacheList.Append | hare/net/buffer.cc:108-162 | content(this) ++ content(other); both lists are rings without a common node; the other is empty; which nodes each has, and what each counts; a new node if the other had none to spare |
| CacheLists.CacheList.FastExpand | hare/net/buffer.cc:164-194 | as designed: the returned number of blocks from `write` on offers at least the bytes asked for; exactly which blocks these are; content unchanged; no node lost |
| CacheLists.CacheList.CountRoom | hare/net/buffer.cc:172-179 | the blocks from `write` to the end of the ring, and how much of the request they do not offer |
| CacheLists.CacheList.Grow | hare/net/buffer.cc:181-192 | as designed: the ring grows until the missing bytes fit, each new node counted |
| CacheLists.CacheList.RoomOffered | hare/net/buffer.cc:449-456 | the stretches given to the scatter read add up to the memory offered |
| CacheLists.CacheList.Scatter | hare/net/buffer.cc:449-483 | the offered memory starts with the bytes that arrived; no cursor moves |
| CacheLists.CacheList.Add | hare/net/buffer.cc:197-210 | takes exactly the next `m` offered bytes into the content, in block order, and terminates |
| CacheLists.CacheList.DrainBlocks | hare/net/buffer.cc:213-234 | clears exactly the blocks it empties; what is left is the content without its first `n` bytes |
| CacheLists.CacheList.Trim | hare/net/buffer.cc:240-248 | frees exactly the nodes between the old and the new `read`, each counted off |
| CacheLists.CacheList.Drain | hare/net/buffer.cc:213-250 | drops exactly the first `n` bytes; how many blocks it empties, which nodes stay on the ring, and that the blocks after are as they were |
| CacheLists.CacheList.Reset | hare/net/buffer.cc:252-265 | one node, no content, given that `head` is on the ring |
| CacheLists.CacheList.Swap | hare/net/buffer-inl.h:126-132 | the two lists exchange rings and content |
| CacheLists.CacheList.ChainSize | hare/net/buffer.cc:109-117 | how many blocks lie from `read` to `write` |
| CacheLists.CacheList.CopyOut | hare/net/buffer.cc:413-422 | as designed: delivers exactly the first bytes and writes nowhere else |
| CacheLists.CacheList.Gather | hare/net/buffer.cc:512-530 | the stretches given to the gather write are the content in order, up to the request or to what the first 128 blocks hold |
| Buffers.Buffer.constructor | hare/net/buffer.cc:298-304 | an empty queue |
| Buffers.Buffer.ClearAll | hare/net/buffer.cc:316-319 | an empty queue, given that `head` is on the ring |
| Buffers.Buffer.Skip | hare/net/buffer.cc:321-328 | the queue without its first `n` bytes, or empty; when `head` is on the ring afterwards |
| Buffers.Buffer.DrainChain | hare/net/buffer.cc:321-328 | the queue without its first `n` bytes; `head` is on the ring afterwards if and only if the drain does not free it |
| Buffers.Buffer.Append | hare/net/buffer.cc:360-383 | this queue followed by the other, which is left empty and shares no node; which nodes, heads and counts each has; a buffer appended to itself, or an empty one appended, changes nothing |
| Buffers.Buffer.TakeOver | hare/net/buffer.cc:360-383 | an empty buffer and the other exchange rings, heads and counts |
| Buffers.Buffer.SpliceOn | hare/net/buffer.cc:360-383 | the ring is the two stretches from `read` to `write`; the other has its spare nodes left, or one new node, counts as many, and has its `head` on that ring |
| Buffers.Buffer.Add | hare/net/buffer.cc:385-400 | the queue followed by the bytes, refused exactly when it would exceed the maximum size; exactly which blocks and nodes there are then |
| Buffers.Buffer.Remove | hare/net/buffer.cc:402-431 | as designed: delivers exactly the bytes it drops; when `head` is on the ring afterwards |
| Buffers.Buffer.Read | hare/net/buffer.cc:433-498 | appends a prefix of what arrived: all of it, or at least as much as is announced (the read limit if nothing is), or as is asked for; exactly as much as the blocks made ready for that hold |
| Buffers.Wanted | hare/net/buffer.cc:434-442 | the lesser of what is announced, or the read limit if nothing is, and what is asked for, if anything |
| Buffers.Buffer.Write | hare/net/buffer.cc:500-569 | what was sent followed by what is left is the queue before; exactly how much is sent; when `head` is on the ring afterwards |
| Buffers.Buffer.Given | hare/net/buffer.cc:502-530 | the socket is given all that is asked for, or all that the first 128 blocks hold |
| Buffers.Buffer.Move | hare/net/buffer.cc:571-575 | the two queues are exchanged |
| BufferRuns.FirstInFirstOut | hare/net/buffer.cc:321-569 | over a whole log, what went out followed by what is left is what was there followed by what came in |
| BufferRuns.Step | hare/net/buffer.cc:316-575 | each operation on one of two buffers, splicing the other on and exchanging with it included, does to the two lists what it does to two plain queues; what it must meet for no `head` to be lost |
| BufferRuns.Run | hare/net/buffer.cc:316-575 | every sequence of operations on two evolving buffers: both queues go through what the operations do to plain queues, each first in, first out; Remove delivers what it drops, and Write sends exactly what is asked for, accepted and within the first 128 blocks; the run stops early only before an operation that needs a lost `head`, and not at all if every drain is of at most 16 nodes and every splice onto a ring without spare nodes |
| BufferRuns.HeadsStay | hare/net/buffer.cc:213-265 | over any run of careful operations neither buffer loses its `head` |
| BufferRuns.LoggedReplays | hare/net/buffer.cc:316-575 | over a whole run each queue ends as its own log of bytes in and out says |
| HeadLoss.LosesHead | hare/net/buffer.cc:213-328 | a run that loses `head`: 17 blocks added, one dropped, one added, one byte added, all but that byte dropped |
| BufferAsWritten.RealignKeepsContent | hare/net/buffer.cc:84-95 | literally: content and capacity survive if and only if the branch that moves is not taken |
| BufferAsWritten.RealignLoses | hare/net/buffer.cc:84-95 | an input on which it fails: 4000 bytes in a block of 4096, 3000 dropped, 200 asked for |
| BufferAsWritten.CopyLoopEffect | hare/net/buffer.cc:413-422 | literally: the caller's bytes overwrite the front of the queue |
| BufferAsWritten.CopyAsWritten | hare/net/buffer.cc:413-422 | literally: the loop does just that to the blocks of the ring, and nothing to the caller's memory |
| BufferAsWritten.RemoveAsWritten | hare/net/buffer.cc:402-431 | literally: what is left in the buffer is right; the caller's memory stays as it was, so the bytes dropped are delivered if and only if they were there before |
| BufferAsWritten.RemoveFails | hare/net/buffer.cc:402-431 | an input: a buffer given one byte, and a caller who keeps the byte they had |
| BufferAsWritten.GrowAsWritten | hare/net/buffer.cc:181-192 | literally: every round adds a node and counts it, and the number of bytes still wanted stays as it is |
| BufferAsWritten.FastExpandAsWritten | hare/net/buffer.cc:164-194 | literally: it ends, in any number of rounds, if and only if the blocks from `write` on offer what is wanted once that is at an empty block, a new one being of at most 65536 bytes |
| BufferAsWritten.NeverReady | hare/net/buffer.cc:164-194 | an input on which it does not end: a new list asked for more than 65536 bytes |
| Kmp.GetNext | hare/net/buffer.cc:65-82 | for each `j`, the longest border of the first `j` letters that is followed by another letter than letter `j`, or -1; the same for one entry past the table, with the letter past the pattern, if and only if the pattern is not empty |
| Kmp.TableWithin | hare/net/buffer.cc:65-82 | the entries up to a letter do not depend on what follows it |
| Kmp.FirstEndUnique | hare/net/buffer.cc:339-358 | the position just past the first occurrence, or the end, is unique |
| Kmp.Find | hare/net/buffer.cc:339-358 | terminates just past the first occurrence, or at the end when there is none |
| Kmp.ScanStep | hare/net/buffer.cc:346-352 | what a letter decides in a round of the search, and that it keeps the invariant |
| Iterators.WalkLength | hare/net/buffer_iterator.cc:13-29 | the walk reaches the end after as many steps as there are bytes and block boundaries |
| Iterators.WalkMeets | hare/net/buffer_iterator.cc:13-29 | it meets the bytes of the content in order, and no byte of it once after each block but the last |
| Iterators.WalkIsContent | hare/net/buffer_iterator.cc:13-29 | it meets exactly the bytes of the content if and only if they lie in one block |
| Iterators.BufferIterator.Begin | hare/net/buffer.cc:330-332 | at the first byte |
| Iterators.BufferIterator.End | hare/net/buffer.cc:334-337 | past the last byte |
| Iterators.BufferIterator.Get | hare/net/buffer_iterator.cc:9-11 | the byte at the position, or what lies past a block's last byte |
| Iterators.BufferIterator.Advance | hare/net/buffer_iterator.cc:13-29 | moves to the next position of the walk |
| Iterators.BufferIterator.AtEnd | hare/net/buffer_iterator.cc:53-63 | whether it is at the end |
| Iterators.Find | hare/net/buffer.cc:339-358 | the iterator ends just past the first occurrence among the letters the walk comes by, or at the end; on one block these are the content |
| Iterators.ReadsOne | hare/net/buffer_iterator.cc:9-29 | on one block the letters are the content |
| Iterators.ReadsTwo | hare/net/buffer_iterator.cc:9-29 | on two blocks a letter that is not of the content comes in between |
| Iterators.SearchMisses | hare/net/buffer.cc:339-358 | two blocks whose letters, unlike their content, do not have what is looked for, unless the unused byte between them happens to be part of it |
| Iterators.SearchFails | hare/net/buffer.cc:339-400 | a buffer made by two calls of Add in which the search does not find what is there |
| Calendar.DateRoundTrip | hare/base/time/datetime.cc:13-32 | every valid date from March of the year -4800 on comes back from its day number |
| Calendar.DayRoundTrip | hare/base/time/datetime.cc:13-32 | every day number from -32044 up decodes to a valid date, leap years included, and comes back from it |
| Calendar.TomorrowIsNext | hare/base/time/datetime.cc:13-21 | the next day of the calendar has the next number |
| Calendar.DateFits | hare/base/time/datetime.cc:23-32 | in 32 bits the date is found if and only if the day number is at most 536838867 |
| Calendar.NumberFitsExactly | hare/base/time/datetime.cc:13-21 | in 32 bits the number is found, and is the right one, if and only if the largest sum on the way fits, the one before the centuries are taken off |
| Calendar.NumberFits | hare/base/time/datetime.cc:13-21 | so up to that day |
| Calendar.DayRoundTrip32 | hare/base/time/datetime.cc:13-32 | so the round trips hold in 32 bits from -32044 up to that day |
| EpochTime.EpochDay | hare/base/time/timezone.cc:28-48 | day 0 is the first of January 1970 |
| EpochTime.TimeRoundTrip | hare/base/time/timezone.cc:19-48 | every time, negative ones included, breaks down to a valid date and time and comes back from it |
| EpochTime.BrokenRoundTrip | hare/base/time/timezone.cc:19-48 | every valid date and time comes back from its seconds |
| EpochTime.BreakTimeRange | hare/base/time/timezone.cc:28-48 | with its 32-bit days a time is broken down if and only if its day is not past that one |
| EpochTime.FromUtcTimeRange | hare/base/time/timezone.cc:261-268 | the 32-bit arithmetic has the right result if and only if that is in [-24855 * 86400, 2^31 - 1] |
| EpochTime.FromUtcTimeOverflows | hare/base/time/timezone.cc:261-268 | an input on which it overflows |
| EpochTime.FromUtcTimeIsPosix | hare/base/time/timezone.cc:261-268 | from 1970 on its result is the formula for Seconds Since the Epoch, section 4.16 of the Base Definitions of POSIX.1-2017, as far as 32 bits hold it |
| Timezones.UpperBound | hare/base/time/timezone.cc:125-157 | the first position whose key exceeds the one looked for, on sorted keys |
| Timezones.FindDuring | hare/base/time/timezone.cc:125-157 | the offset found for an instant is that of the transition before it |
| Timezones.FindBetween | hare/base/time/timezone.cc:159-224 | the offset found for a reading, in gaps, in repeats and between them |
| Timezones.InstantBack | hare/base/time/timezone.cc:125-224 | an instant comes back from its reading by one flag or the other if and only if it is not in the earlier half of a repeat at the first or the last transition |
| Timezones.UniqueReadingBack | hare/base/time/timezone.cc:125-224 | when no other instant has that reading, both flags lead back |
| Timezones.ReadingBack | hare/base/time/timezone.cc:159-224 | a reading comes back from the instant taken for it if and only if no transition skips it |
| Timezones.RepeatBothSides | hare/base/time/timezone.cc:159-224 | in a repeat the two flags give the two instants with that reading, in order |
| Timezones.GapBothSides | hare/base/time/timezone.cc:159-224 | in a gap they give instants on opposite sides of the transition |
| Timezones.ToLocalBack | hare/base/time/timezone.cc:272-299 | the same through broken-down times: FromLocal(ToLocal(t), p) == t for some flag, exactly as above |
| Timezones.FromLocalBack | hare/base/time/timezone.cc:272-299 | ToLocal(FromLocal(dt, p)) == dt if and only if no transition skips dt |
| Queues.CircularQueue.constructor | include/hare/base/util/queue.h:40-42 | an empty queue |
| Queues.CircularQueue.PushBack | include/hare/base/util/queue.h:53-63 | the bounded queue with the item added, its oldest dropped and counted when over |
| Queues.CircularQueue.PopFront | include/hare/base/util/queue.h:81-86 | takes the oldest item |
| Queues.CircularQueue.Size | include/hare/base/util/queue.h:68-71 | the number of items |
| Queues.CircularQueue.At | include/hare/base/util/queue.h:75-79 | the item at a position, round the ring |
| Queues.CircularQueue.Empty | include/hare/base/util/queue.h:96 | whether there is none |
| Queues.CircularQueue.Full | include/hare/base/util/queue.h:97-99 | whether one more would drop one |
| Queues.BlockingQueue.Enqueue | include/hare/base/util/queue.h:155-162 | once there is room nothing is dropped and the counter stays |
| Queues.BlockingQueue.EnqueueNoWait | include/hare/base/util/queue.h:165-171 | the oldest makes room if need be, and is counted |
| Queues.BlockingQueue.Dequeue | include/hare/base/util/queue.h:186-193 | takes the oldest item |
| Queues.InOrder | include/hare/base/util/queue.h:53-99 | over any run what has left, taken or dropped, followed by what is held is what was there followed by what came in |
| Queues.Run | include/hare/base/util/queue.h:53-99 | the ring does over any run what the bounded queue does: the items taken are those it says, the counter counts those dropped, and pushed = popped + dropped + held |
| LoggerShutdown.InitInv | hare/log/async_logger.cc:8-66 | the invariant of the protocol holds at the start |
| LoggerShutdown.NextKeeps | hare/log/async_logger.cc:8-66 | every step of producers, workers and destructor keeps it |
| LoggerOrder.StepIsRing | include/hare/base/util/queue.h:53-86 | every step does to the queue what the ring of `Queues` does: posts push, the oldest dropped when over, and a worker takes the oldest |
| LoggerOrder.WaitsForRing | include/hare/base/util/queue.h:155-193 | a post waits exactly while the ring would drop something, unless the policy lets it; a worker waits exactly while there is nothing |
| LoggerOrder.MessagesInOrder | hare/log/async_logger.cc:8-24 | over any run, for messages of every kind: what was queued followed by what came is what left, in order, followed by what is queued |
| LoggerOrder.LogsInOrder | hare/log/async_logger.cc:22-24 | in every run the messages accepted, in order, are those taken or dropped followed by those queued; under BLOCK_RETRY those taken, in the order they are taken, followed by those queued |
| LoggerOrder.CountsAreOfRun | hare/log/async_logger.cc:22-24 | the counts of messages accepted and dropped are those of the run |
| LoggerOrder.WorkersInOrder | hare/log/async_logger.cc:26-66 | each worker handles what it takes, in that order, and holds what it has not handled; what is handled is counted |
| LoggerOrder.FlushComesAfter | hare/log/async_logger.cc:17-20 | a flush asked for is queued behind every message that came before, or they have all left before it |
| LoggerShutdown.LivingWorkers | hare/log/async_logger.cc:8-15 | in every run, living workers = TERMINATEs to be posted + queued + in hand |
| LoggerShutdown.ShutdownComplete | hare/log/async_logger.cc:8-66 | once all workers have left, every message accepted has been handled exactly once, or dropped under DISCARD; only flushes can be left |
| LoggerShutdown.StuckStates | include/hare/base/util/queue.h:155-193 | a destroying state has no next step if and only if all workers have left, or the queue is full and every living worker waits to post its own flush |
| LoggerShutdown.DestructorEnds | hare/log/async_logger.cc:8-15 | every run of the destructor is finite: each step uses up one unit of work |
| LoggerShutdown.ShutdownProgress | hare/log/async_logger.cc:8-20 | a run that can go no further has ended, or is in that deadlock; without messages at flush level it has ended |
| LoggerShutdown.DeadlockReachable | hare/log/async_logger.cc:40-42 | with them, whatever the queue size and the number of workers, some run reaches the deadlock |
| PollTable.ReportReadsBack | hare/base/io/reactor/reactor_poll.cc:16-45 | what is asked of poll() and reported reads back as the same events; errors as readable and writeable |
| PollTable.AsksAndTells | hare/base/io/reactor/reactor_poll.cc:16-45 | each bit asked of poll() and each event told of a report, exactly; an error or a hang-up stands for input and output |
| PollTable.ReactorPoll.constructor | hare/base/io/reactor/reactor_poll.cc:72-74 | nothing registered, 16 slots that never move |
| PollTable.ReactorPoll.Poll | hare/base/io/reactor/reactor_poll.cc:78-96 | whatever poll() reports, what is asked of it stays |
| PollTable.ReactorPoll.EventUpdate | hare/base/io/reactor/reactor_poll.cc:98-135 | exactly this descriptor's mask changes; descriptors and slots stay a bijection |
| PollTable.ReactorPoll.EventRemove | hare/base/io/reactor/reactor_poll.cc:137-164 | exactly this descriptor goes; the swap keeps the bijection |
| PollTable.Run | hare/base/io/reactor/reactor_poll.cc:78-164 | after any operations and polls poll() is asked for exactly what was last wanted of each descriptor still registered |
| Registration.AsksFor | hare/base/io/reactor/reactor_epoll.cc:34-47 | each bit asked of epoll, exactly: input and urgent data, output, edges |
| Registration.Tells | hare/base/io/reactor/reactor_epoll.cc:49-68 | each event told of a report, exactly: READ and WRITE after an error or a hang-up that is not just the peer's |
| Registration.OnlyReadOrWrite | hare/base/io/reactor/reactor_epoll.cc:34-68 | an event is only ever told READ or WRITE, never CLOSED; without an error only what it asked for |
| Registration.Event.Active | hare/base/io/event.cc:158-161 | in a cycle, under an id |
| Registration.Event.Reset | hare/base/io/event.cc:163-166 | in none |
| Registration.Cycle.constructor | hare/base/io/cycle.cc:148-179 | nothing registered |
| Registration.Cycle.EventUpdate | hare/base/io/cycle.cc:381-426 | the three tables stay one to one; a new event gets an id never used before; what happens when epoll refuses |
| Registration.Cycle.EventRemove | hare/base/io/cycle.cc:428-466 | exactly this event leaves all three tables |
| Registration.Cycle.Cancel | hare/base/io/cycle.cc:352-379 | exactly an event without descriptor leaves |
| Registration.Cycle.FillActiveEvents | hare/base/io/reactor/reactor_epoll.cc:169-182 | every report finds the event it carries, registered under its id; all assertions hold |
| Registration.Polled | hare/base/io/reactor/reactor_epoll.cc:169-182 | a poll hands on the events of the descriptors reported, one by one in that order, each in the cycle, told what is reported |
| Registration.PossibleExactly | hare/base/io/reactor/reactor_epoll.cc:169-182 | the reports handed on are those of descriptors epoll has been asked for, each as often as it is made |
| Registration.PossibleInOrder | hare/base/io/reactor/reactor_epoll.cc:169-182 | and in the order they are made |
| Registration.Cycle.Stop | hare/base/io/cycle.cc:257-262 | after the loop ends the tables agree if and only if no descriptor was left registered |
| Registration.SetEvents | hare/base/io/event.cc:82-120 | the mask changes and epoll is asked for it; nothing else does |
| Registration.Step | hare/base/io/cycle.cc:352-466 | every operation on any of the events keeps the tables, never reuses an id, does to them what it does to a plain table of the events in the cycle, and keeps epoll's masks in step if it does not refuse |
| Registration.Run | hare/base/io/cycle.cc:352-466 | over every run the tables agree, the events in the cycle are at each step those of the plain table, ids given out only rise, every event in the cycle has one of them, every poll finds the events reported, and epoll's masks are in step if it has not refused |
| Timers.Cycle.RunAfter | hare/base/io/cycle.cc:303-325 | a timer under a new id, its stamp in the heap; the event is nobody else's |
| Timers.Cycle.EventUpdate | hare/base/io/cycle.cc:381-426 | the same for an event of the user's own, with a timeout and no descriptor |
| Timers.Cycle.Tie | hare/base/io/event.cc:138-141 | the event is tied, if it is the user's own |
| Timers.Cycle.Cancel | hare/base/io/cycle.cc:352-379 | it is no longer among the events, though its heap entry stays |
| Timers.Cycle.HandleEvent | hare/base/io/event.cc:145-156 | its task is called, and all it does is done, if the event is tied to an object that is alive; otherwise nothing happens |
| Timers.Cycle.TriggerTop | hare/base/io/cycle.cc:507-531 | the timer on top is triggered and leaves the table; what is popped is the entry on top of the heap with what its task has armed |
| Timers.Cycle.NotifyTimer | hare/base/io/cycle.cc:501-533 | round by round what triggers, tasks and pops do; it ends once the heap is empty or its top not due; when tasks do nothing, latest stamp first, every due timer is triggered if and only if all are due or no due one is left, and then those tied to living objects are called |
| Timers.RoundLeaves | hare/base/io/cycle.cc:507-531 | a round leaves one more timer in the table without a heap entry if and only if the entry on top after its task is that of another timer in the table |
| Timers.WhoIsLeft | hare/base/io/cycle.cc:501-533 | whatever tasks do, a timer in the table at the end waits behind a stamp still to come, or has been left behind, exactly if its heap entry has been popped |
| Timers.PoppedIsLost | hare/base/io/cycle.cc:501-533 | in any run a timer is not triggered after its heap entry has been popped |
| Timers.OnlyOwn | hare/base/io/event.cc:138-156 | tasks are called of the user's own timers only |
| Timers.Run | hare/base/io/cycle.cc:303-533 | over any run and whatever the order of the heap no timer is triggered before its stamp, twice, or after it was cancelled; a task is called if and only if its timer is triggered while tied to a living object; that of a timer made by RunAfter never; a timer is in the table if and only if neither triggered nor cancelled, and has a heap entry if and only if that has not been popped |
| Timers.DueTask | hare/base/io/cycle.cc:303-533 | an input: a due timer is triggered, and its task called if and only if the event is the user's own and tied |
| Timers.LosesTimer | hare/base/io/cycle.cc:501-533 | an input: a due timer whose task arms another one for later, which then is in the table with no heap entry |
| Session.TcpSession.constructor | hare/net/tcp/session.cc:188-200 | connecting, nothing queued, asking to read and write |
| Session.TcpSession.QueueInCycle | hare/base/io/cycle.cc:287-296 | what is queued comes last |
| Session.TcpSession.Do | hare/net/tcp/session.cc:95-186 | what each call does in each state, from outside or from a callback |
| Session.TcpSession.Callback | hare/net/tcp/session.cc:226-304 | a callback does what its calls do, one after another; an open session is closed by it if and only if it forces that |
| Session.CallsForward | hare/net/tcp/session.cc:95-186 | whatever calls are made, the state only moves forward and nothing is written; a connected session stays so if and only if none shuts it down or closes it |
| Session.ReportWrites | hare/net/tcp/session.cc:209-274 | a report of WRITE writes what the socket takes of the output, if the session asks to write and the read does not close it, and closes a session that waited for that |
| Session.TaskWrites | hare/net/tcp/session.cc:128-186 | a task's bytes go behind the output, and are written at once, as far as the socket takes them, if there was none |
| Session.TcpSession.HandleWrite | hare/net/tcp/session.cc:241-274 | written ++ buffered stays; how much is written; a disconnecting session closes after the first write, even of a part |
| Session.TcpSession.HandleRead | hare/net/tcp/session.cc:226-239 | the assertion of the close fails if and only if nothing is read and the session is not open |
| Session.TcpSession.HandleCallback | hare/net/tcp/session.cc:209-224 | the same for a report of READ and WRITE; exactly what is written then, what is left and what becomes of the session; what a report of CLOSED would add |
| Session.TcpSession.HandleClose | hare/net/tcp/session.cc:276-295 | disconnected, out of the cycle, destroyed once, whatever the callback told of it does |
| Session.TcpSession.ConnectEstablished | hare/net/tcp/session.cc:306-319 | connected if and only if the callback does not shut the session down or close it; the event is in the cycle only while the session is open, if and only if the callback does not close it |
| Session.TcpSession.RunTask | hare/net/tcp/session.cc:128-186 | a task is done in queue order, its bytes buffered and written at once if nothing was; whom it calls back |
| Session.TcpSession.DoPendingFunctions | hare/base/io/cycle.cc:485-499 | all that was queued before is done, in order |
| Session.Happen | hare/net/tcp/session.cc:95-319 | every step keeps the invariants and does to the session what it does to the plain one; it fails an assertion if and only if the turn of an event comes after its session has been closed, while the user or a queued task still has it, with nothing to read |
| Session.Run | hare/net/tcp/session.cc:95-319 | over every run, up to the first assertion that fails if one does: exactly where that is; each step does what it does to a plain session, and each event writes what the socket takes if the session asks to; never a failure if events come only while registered and the callback told of the connection does not close it; written ++ buffered is what the sends done sent, tasks are done in queue order, buffered output asks to be written until the close, the state only moves forward, and the session is destroyed exactly once, by the close |
| Session.ClosedWhenConnected | hare/net/tcp/session.cc:306-319 | a run that fails the assertion: the callback told of the connection closes it, and the user keeps the session |
| Session.ClosedInBatch | hare/base/io/cycle.cc:236-244 | another: a handler closes a session whose event is further back in the batch; it fails if and only if the user keeps the session |

## Left out

- The list of blocks holds each block as a value, since a node owns its block alone; `Blocks.Cache` shows that the memory
  written in place has that value. Allocation failure and the destructors are not modelled.
- CacheLists.CacheList.FastExpand: models the growth loop counting down, as designed;
  `BufferAsWritten.FastExpandAsWritten` has the literal loop.
- CacheLists.CacheList.Grow: the same.
- Buffers.Buffer.Remove: models the copy towards the caller, as designed; `BufferAsWritten.RemoveAsWritten` has the literal
  one.
- CacheLists.CacheList.CopyOut: the same.
- Blocks.Cache.Realign: models the size being set, as designed; `BufferAsWritten.RealignKeepsContent` has the literal one.
- Blocks.Block.Realign: the same.
- CacheLists.CacheList.Reset: not on a list whose `head` is off the ring, where the code uses a node it has freed;
  `HeadLoss.LosesHead` leads there.
- Buffers.Buffer.ClearAll: the same.
- Buffers.Buffer.Skip: the same, for a skip of everything.
- BufferRuns.Run: two buffers; a read that the blocks do not suffice for is as designed.
- Kmp.Find: positions are unbounded integers where the code counts in 32 bits.
- Iterators.Find: not on a buffer that never had a block, where the iterator has nothing to look at.
- LoggerShutdown.ShutdownComplete: formatting, backends, the message counter and exceptions in a flush are not modelled;
  handling a message is one step.
- Registration.Cycle.EventUpdate: the heap entry of an event with a timeout is modelled with the timers, and a task is
  taken to run in the cycle's thread at once; another thread's update is the same step later.
- Registration.Cycle.EventRemove: epoll is taken to remove a registered descriptor that is still open.
- Timers.Cycle.NotifyTimer: a task that cancels its own timer is excluded, as the code then uses an event it has erased;
  events with a descriptor and a timeout at once are not among its timers.
- Timers.Cycle.EventUpdate: the first update of an event; one more of the same event would only add a second heap entry
  for it. An event tied before it comes to the cycle is one tied right after.
- Session.Run: the input buffer and `Append` of a whole buffer, which queues the same work as `Send`, are not modelled
  apart; who still has a session that is closed is told with each event.
- Persistent timers, since the event's constructor clears the timeout of a persistent event; `Timezone::Clone`, which
  copies no transitions; the poll reactor's dispatch, which takes a slot for an event id; rings of size 0 in the logger.
- System calls, sockets, addresses, log formatting, system information and the platform layers: I/O, or easy members only.
