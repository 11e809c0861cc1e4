# A model of the zero-copy buffers, the task pool and the SMTP data path

The project models three cores of the repository and proves what they are for.

**The stream buffer** (`src/zerocopy`). `basic_streambuf` keeps bytes in a list of fragments; the get
pointers lie in the first fragment, the put pointers in a later one, and two counters are kept by hand.
`StreamBuffer.StreamBuf` is that class, method by method, over real arrays: fragments are windows of byte
arrays shared by the buffer, its iterators and the segments that `detach` cuts off. Its abstract value is
`Contents()`, a plain sequence of bytes, and `Valid()` is the representation invariant. Every method is
proved against `Contents()`. `Queues` says what underflow and xsgetn do to a queue of bytes of which a part is
shown, `ByteQueue` the same for every operation, and `Runs` lifts this to all sequences of operations on any valid buffer: the buffer is that queue, and no operation changes a
byte of a segment that was detached before, although both share an array. `Iterators`, `Segments`, `ExpIterators` and `ReadUntil` are the code built on top.

**The task pool** (`src/client/thread_pool.h`). What a thread does while it holds the mutex is one step of
a state machine with explicit wait sets, `notify_one` (any waiter), `notify_all` and spurious wakeups.
`ThreadPool` holds the steps and their invariant, `PoolTheorems` what holds after `close`, `PoolProgress`
the absence of deadlock and the bound on the length of runs.

**The SMTP data path.** `Fix` (the client's dot stuffing), `BodyScanner` (three versions of the server's
end-of-data automaton), `Transparency` (the two together, section 4.5.2 of RFC 5321), `MboxIndex` (cutting
an archive into messages and having the pool fix them) and `ResponseParser` (section 4.2 of RFC 5321).

The network is the class `Network.Socket`: any sequence of non-empty reads, cut to the room that a read
is given. An exception is a result value (`ok`, `threw`, `Reply.LengthError`, `Outcome.LengthError`).
Fragments have absolute numbers, so popping one does not renumber iterators, and an index counts bytes
from the beginning of the whole stream, bytes already popped included.

## Where the code does not do what it promises

Each of these is proved, with the exact condition under which the promise holds.

- `consume` leaves `inter_size_` too large when it moves `egptr` without re-basing it
  (`streambuf.h:641`, `651-671`). `StreamBuf.Excess()` is the error, `StreamBuf.Consume` states when it grows and
  by how much, and `StreamBuf.SizeIsContents` says that `size()` is right exactly when it is zero. The bytes
  seen through the pointers and `data()` are always right, and `detach` in the put fragment repairs the
  counter. `consume` asserts `size <= this->size ()`, which with a wrong counter lets through more bytes than
  there are (example `Runs.Overcounted`); the loop then pops the put fragment or stops beyond `pptr`.
  `StreamBuf.Consume` says that it drops n bytes exactly when there are n.
- `detach(begin() + n)` fails an assertion (`streambuf.h:432` or `478`) exactly when n is everything and the
  put fragment is full but not the last one, which `overflow` leaves behind: it publishes its byte without
  promoting the put area, and a forward move to the end then stands in the next fragment
  (`Runs.DetachFromBegin`, example `Runs.DetachEndFails`). `detach(end())` is always right.
- `do_underflow` returns `*gptr` without `to_int_type` (`streambuf.h:1086`), so 0xFF reads as end of file
  where `char` is signed. `underflow` then asks the handler for more, and if more comes, its second
  `do_underflow` drops the rest of the front fragment unless that fragment still has put space.
  `StreamBuf.Underflow` and `StreamBuf.GetRound` state when this happens and how many bytes are lost, in terms of
  the state before the call (example `Runs.UnderflowLosesByte`); `Runs.Run` accounts for what is lost, and
  without a byte 0xFF, or once the peer has closed or the size check refuses more, nothing is.
- `total_size_` is set once (`streambuf.h:295`). The size check of `reserve` compares against that constant,
  and because `promote_put` reserves one byte, `commit` throws after it has published its bytes, exactly when
  the limit is reached and they end where a fragment that is not the last one ends (`StreamBuf.Commit`, example
  `Runs.CommitThrows`).
- `iterator::decrement` subtracts one only inside a fragment: at the end of one it drops a flag and stays, at
  the beginning of one its assertion has the wrong sense and `cur_val_ == end` assigns nothing
  (`iterator.h:146-149`, `Iterators.Iterator.Decrement`). `advance` with `n <= 0` is off by one from the end of a
  fragment (`Iterators.Iterator.Advance`).
- `segment::append` takes equal head and tail pointers for an empty segment. For pieces in stream order that is
  right exactly up to two fragments (`Segments.Segment.DroppedIsEmpty`, example `Segments.AppendLosesByte`). An empty
  list with unequal pointers, which `get_part` returns for two equal positions at a boundary, makes it read the
  front of an empty vector (`segment.h:115`, `Segments.Segment.Append`, example `Segments.AppendFails`). A segment
  cut at the edge of a fragment leaves an empty window in the middle (`Segments.Segment.Append` says when).
- `segment::end` looks for the first fragment that contains the tail pointer, which is the wrong one exactly
  when a fragment before the last two does (`Segments.Segment.End`); never so for a segment cut off by `detach`.
  Walking a segment is right exactly under this condition; over an empty list, exactly when head and tail are
  equal (`Segments.Segment.Walk`).
- `async_read_until` issues a read even when the delimiter is in the buffer already, and goes on searching
  behind it (`ReadUntil.RightUnlessBuffered`).
- A `post` that is inside `post` when `close` runs is accepted after the stop tasks, and its task never runs
  (`PoolTheorems.AllEnteredRan`, example `PoolTheorems.RaceLosesJob`).
- `close` can leave posters waiting for good. If more than `max_size_` + 1 are inside `post`, there is no room for
  those in excess. A forced `close` clears the queue without notifying `read_cond_`
  (`thread_pool.h:55-60`), and each of the stop tasks wakes one poster at most: if more wait than there are
  threads, those in excess stay, although there is room. `PoolProgress.LeftBehind` gives the exact number and
  `PoolProgress.NobodyLeft` the exact condition (examples `PoolProgress.PosterLeftWaiting`,
  `PoolProgress.ForcedLeavesOne`).
- The comment of the fixer speaks of adding LF after CR; the code adds CR before LF, and does so unless the
  LF follows an odd number of CRs (`Transparency.RoundTrip`). An empty message is sent without the
  mark that ends the data (`Transparency.Transparent`).
- The archive parser reads at most ten digits of a size (`MboxIndex.ReadsBack`), and the task of an empty message
  fails the assertion of a positive size (`index.h:74`, `MboxIndex.Build`).

## Model

| member | source | states |
|---|---|---|
| Fragments.FlatAt | src/zerocopy/iterator.h:133-139 | the byte at an offset of fragment k is the byte of the stream at the summed sizes before it plus that offset |
| Fragments.TrimIsSlice | src/zerocopy/segment.h:60-73 | cutting the first and last fragment of a run at two pointers shows exactly the slice of the stream between them |
| Fragments.RestFromIsSlice | src/zerocopy/streambuf.h:598-618 | the buffers from a pointer to the end of the list show the rest of the stream |
| Network.Scatter | src/zerocopy/streambuf.h:590-619 | a read into a list of buffers fills them first to last and leaves what lies before each window alone |
| Network.Socket.ReadSome | src/server/coro/zc_session.h:55-63 | one read delivers a prefix of what is unread, at most the next piece, and nothing only at the end or without room |
| StreamBuffer.StreamBuf.constructor | src/zerocopy/streambuf.h:310-340 | the fragment sizes, the number and size of the first fragments and the limit, as given or by default; an empty queue with a right size counter |
| Runs.DefaultBuffer | src/server/coro/zc_session.h:27-33 | all defaults: one fragment of 512 bytes, fragments of 512 to 1048576 bytes, a limit of 2^64 - 1 |
| StreamBuffer.StreamBuf.Init | src/zerocopy/streambuf.h:273-308 | number and sizes of the first fragments; both pointer areas at the start; total_size_ is the put space then |
| StreamBuffer.StreamBuf.PutIndexBounds | src/zerocopy/streambuf.h:120-123 | gptr, egptr, pbase, pptr are in this order in the stream, and put_size is what lies behind pptr |
| StreamBuffer.StreamBuf.Reserve | src/zerocopy/streambuf.h:792-844 | throws exactly when total_size_ + n > max_size_; otherwise at least n bytes of put space, exactly ceil((n - put_size) / max_fragmentation_) new fragments, all but the last of the largest size and the last of what is missing or the smallest size; contents and prepared bytes unchanged |
| StreamBuffer.StreamBuf.ReserveMore | src/zerocopy/streambuf.h:817-839 | the loop ends with just enough new fragments |
| StreamBuffer.StreamBuf.JustEnoughStep | src/zerocopy/streambuf.h:820-826 | a fragment short of the limit is always the last one |
| StreamBuffer.StreamBuf.PromotePut | src/zerocopy/streambuf.h:938-968 | moving the put area to the next fragment keeps contents, prepared bytes and the size counter's error; fails only with the length error |
| StreamBuffer.StreamBuf.PromotePutIfExist | src/zerocopy/streambuf.h:784-789 | afterwards there is put space at pptr unless the list ends there; nothing else changes |
| StreamBuffer.StreamBuf.Commit | src/zerocopy/streambuf.h:684-750 | the first n prepared bytes are appended to the contents and leave the prepared ones, across any number of fragments; the length error exactly when the limit is reached and the n bytes end where a fragment that is not the last one ends |
| StreamBuffer.StreamBuf.Store | src/zerocopy/streambuf.h:917-917 | copying behind pptr changes no published byte and shows up as the next prepared bytes |
| StreamBuffer.StreamBuf.Xsputn | src/zerocopy/streambuf.h:893-935 | all of s is appended, or nothing with the length error |
| StreamBuffer.StreamBuf.Overflow | src/zerocopy/streambuf.h:757-781 | the byte is appended unless it is EOF or the length error is thrown; it is published in place, short of any promotion |
| StreamBuffer.StreamBuf.Prepare | src/zerocopy/streambuf.h:590-619 | the buffers handed out are exactly the space behind pptr, at least n bytes |
| StreamBuffer.StreamBuf.FillBuffers | src/zerocopy/streambuf.h:590-619 | bytes written into the prepared buffers are the next to be published, and change no published byte |
| StreamBuffer.StreamBuf.ReadMore | src/server/coro/zc_session.h:55-63 | prepare, one read and commit move a prefix of the unread bytes to the contents: the whole piece that arrives in one go, or as much of it as was asked for at least |
| StreamBuffer.StreamBuf.InvokeUnderflowHandler | src/zerocopy/streambuf.h:752-753 | contents plus unread bytes are unchanged, and one read is made: a piece of up to 1024 bytes whole, at least 1024 bytes of a longer one; what each answer of the handler means |
| StreamBuffer.StreamBuf.CompactPutArea | src/zerocopy/streambuf.h:847-866 | a valid buffer stays valid, with the same bytes, the same size and the same counter's error, whether or not anything moves |
| StreamBuffer.StreamBuf.ExtendGetArea | src/zerocopy/streambuf.h:868-889 | egptr moves to pbase and inter_size_ by the same amount |
| StreamBuffer.StreamBuf.DoUnderflow | src/zerocopy/streambuf.h:1012-1088 | afterwards all that is published in the first fragment is visible; a first fragment that was visible to its end is dropped with what was left in it; the result is the byte in front as a signed char, or EOF |
| StreamBuffer.StreamBuf.Underflow | src/zerocopy/streambuf.h:1091-1098 | contents plus unread bytes are unchanged but for the bytes lost; how many are lost, and that any are if and only if 0xFF is at the front, the size check passes, the peer still delivers, and the front fragment has no put space left; throws exactly at the end or before 0xFF when the size check fails; one read at most; returns the byte in front as a signed char, or EOF |
| StreamBuffer.StreamBuf.HandleAndRetry | src/zerocopy/streambuf.h:1094-1096 | the exact number of bytes that the second do_underflow drops, and the length error exactly when the size check fails |
| StreamBuffer.StreamBuf.Xsgetn | src/zerocopy/streambuf.h:985-1009 | goes by rounds that take what is shown and call underflow, and stops only with all bytes taken or after a round that finds the end or 0xFF behind its get area; takes at least what was shown; nothing is skipped once the peer has closed or the size check fails; throws exactly when it stops short and the size check fails |
| StreamBuffer.StreamBuf.GetRound | src/zerocopy/streambuf.h:994-1002 | one round of the loop takes what is shown; whether it throws, reads, drops bytes, and how many, is decided before the round by the first byte that is not visible |
| Queues.NoneSkipped | src/zerocopy/streambuf.h:1086-1087 | where no 0xFF is, nothing is skipped |
| Queues.GetsGrow | src/zerocopy/streambuf.h:994-1002 | a further round extends the rounds of an xsgetn |
| Queues.TakesShown | src/zerocopy/streambuf.h:996-998 | the rounds of an xsgetn begin with all bytes that are shown, or as many as are asked for |
| StreamBuffer.StreamBuf.Consume | src/zerocopy/streambuf.h:622-681 | for any n: drops exactly n bytes iff there are that many, otherwise the assertion fails or the put fragment is popped or passed; the get area shows the rest of the first fragment; the exact growth of the counter's error, and when it stays the same |
| StreamBuffer.BoundaryIff | src/zerocopy/streambuf.h:658-674 | the loop of consume ends where a fragment ends exactly when the consumed bytes do |
| StreamBuffer.StreamBuf.SizeIsContents | src/zerocopy/streambuf.h:525-536 | size() is the number of readable bytes if and only if the counter has no error |
| StreamBuffer.StreamBuf.Data | src/zerocopy/streambuf.h:540-586 | the buffers flatten to the contents and none is empty |
| StreamBuffer.StreamBuf.Begin | src/zerocopy/streambuf.h:360-373 | begin() is the position of gptr |
| StreamBuffer.StreamBuf.End | src/zerocopy/streambuf.h:378-390 | end() is the position of pptr |
| StreamBuffer.StreamBuf.BeforePut | src/zerocopy/streambuf.h:432-434 | a position short of the end is never beyond the put fragment |
| StreamBuffer.StreamBuf.EndBeyondPut | src/zerocopy/iterator.h:167-174 | a forward move to the end stands beyond the put fragment exactly when that is full and not the last |
| StreamBuffer.StreamBuf.Detach | src/zerocopy/streambuf.h:409-521 | for every split point the segment holds exactly the bytes before it; an assertion fails exactly for a split point beyond the put fragment; otherwise the buffer holds the rest, in all branches, no later put can write what was cut off, and the counter's error stays or is repaired |
| StreamBuffer.StreamBuf.SegmentUpTo | src/zerocopy/streambuf.h:416-427 | the segment built before the pointers move already shows the prefix, and only sealed bytes |
| StreamBuffer.StreamBuf.DetachInFirst | src/zerocopy/streambuf.h:447-469 | split inside the first fragment |
| StreamBuffer.StreamBuf.DetachInPut | src/zerocopy/streambuf.h:430-445 | split when get and put share the fragment |
| StreamBuffer.StreamBuf.DetachAcross | src/zerocopy/streambuf.h:471-512 | split behind popped fragments |
| StreamBuffer.StreamBuf.DropFragments | src/zerocopy/streambuf.h:472-481 | popping up to the split fragment keeps the stream behind it and the counter's error |
| StreamBuffer.StreamBuf.OnwardWhenExtended | src/zerocopy/streambuf.h:834-834 | growing the list and moving the put pointer forward never makes an old byte writable again |
| StreamBuffer.StreamBuf.SegmentSurvives | src/zerocopy/streambuf.h:424-427 | a segment keeps its bytes, and stays sealed, over anything that moves the put pointer onward |
| Runs.Apply | src/zerocopy/streambuf.h:408-1098 | one operation of any kind on any buffer moves the queue as `ByteQueue.Moves` says: what arrives, exactly how many bytes are taken, what is gone besides, and the character that sgetc returns |
| Runs.Step | src/zerocopy/streambuf.h:408-1098 | one operation leaves every segment detached so far with its bytes |
| Runs.Run | src/zerocopy/streambuf.h:408-1098 | over every run of put, fill and commit, read, get, consume and detach on any valid buffer: each operation moves the queue as its kind does, from the first state to the last; all that arrived is all that is gone followed by the contents, socket bytes in order; and every segment ever detached still shows the bytes it was cut with |
| Runs.NothingSkippedInRun | src/zerocopy/streambuf.h:408-1098 | without 0xFF a run is that of a plain queue: each operation takes its number of bytes from the front of contents and unread bytes, and all that arrived is all that was taken followed by the contents |
| ByteQueue.Conservation | src/zerocopy/streambuf.h:408-1098 | in any run: what was there and what arrived is what is gone and what is left; socket bytes arrive in order; nothing is skipped once the peer has closed |
| ByteQueue.PlainStep | src/zerocopy/streambuf.h:985-1098 | without 0xFF one operation takes exactly as many bytes as asked for or as there are, counting unread ones for a get that the size check allows, from the front |
| ByteQueue.PlainQueue | src/zerocopy/streambuf.h:408-1098 | the same for every operation of any run |
| Runs.DetachFromBegin | src/zerocopy/streambuf.h:409-521 | detach(begin() + n) is right for every n, except for everything when the put fragment is full and not the last |
| Runs.DetachEndFails | src/zerocopy/streambuf.h:430-434 | a concrete buffer where begin() + size() is refused |
| Runs.CommitThrows | src/zerocopy/streambuf.h:684-750 | a concrete buffer at its limit where commit publishes a byte and then throws |
| Runs.Overcounted | src/zerocopy/streambuf.h:633-633 | a concrete buffer with size() above the bytes there are, so that the assertion of consume lets through too many |
| Runs.Rebuild | src/zerocopy/segment.h:100-129 | successive detached pieces, appended, are the prefix of the stream, and the buffer holds the rest |
| Runs.UnderflowLosesByte | src/zerocopy/streambuf.h:1091-1098 | a concrete buffer and read where underflow drops one byte 0xFF |
| Iterators.Iterator.constructor | src/zerocopy/iterator.h:44-64 | a valid position, flagged exactly at the end of its fragment; flagged over an empty list |
| Iterators.Iterator.Find | src/zerocopy/iterator.h:66-84 | finds the first fragment that contains the pointer; flagged over an empty list |
| Iterators.Iterator.EqualIffSameIndex | src/zerocopy/iterator.h:97-110 | equal if and only if the stream indices agree, though a boundary has two representations |
| Iterators.Iterator.Increment | src/zerocopy/iterator.h:112-131 | adds one to the index |
| Iterators.Iterator.Dereference | src/zerocopy/iterator.h:133-139 | the byte of the stream at the index |
| Iterators.Iterator.Decrement | src/zerocopy/iterator.h:141-152 | subtracts one if and only if the position is inside a fragment; refused at the beginning of one; at the end of one it stays |
| Iterators.Iterator.Advance | src/zerocopy/iterator.h:154-195 | adds n if and only if n is not negative or the position is not at a fragment end; otherwise one less, and when the position stays valid |
| Iterators.Iterator.AdvanceForward | src/zerocopy/iterator.h:156-176 | the forward loop adds n across fragments |
| Iterators.Iterator.AdvanceBackward | src/zerocopy/iterator.h:177-194 | the backward loop subtracts across fragments |
| Iterators.Iterator.DistanceTo | src/zerocopy/iterator.h:197-224 | the difference of the indices, in both directions |
| Iterators.Iterator.SurvivesGrowth | src/zerocopy/iterator.h:86-92 | appending fragments leaves an iterator valid and at its index |
| Iterators.Iterator.SurvivesPops | src/zerocopy/iterator.h:86-92 | popping fragments before its own leaves it valid and at its index |
| Iterators.AfterAgainstInner | src/zerocopy/iterator.h:99-107 | the end of a fragment meets exactly the beginning of the next one |
| Segments.Segment.BytesAreSlice | src/zerocopy/segment.h:60-73 | a segment shows the slice of its fragments between head and tail |
| Segments.Segment.Size | src/zerocopy/segment.h:152-173 | the number of bytes the segment shows |
| Segments.Segment.Append | src/zerocopy/segment.h:100-129 | flattens to the concatenation unless x's head and tail pointers are equal; fails exactly on unequal pointers into an empty list; when the list gets an empty window |
| Segments.Segment.DroppedIsEmpty | src/zerocopy/segment.h:102-103 | what append takes for empty is empty if and only if it has at most two fragments |
| Segments.AppendLosesByte | src/zerocopy/segment.h:102-103 | a concrete segment that append drops although it has a byte |
| Segments.AppendFails | src/zerocopy/segment.h:115-123 | a concrete part that append cannot take |
| Segments.NonEmptyAppend | src/zerocopy/segment.h:108-123 | the joined windows are non-empty exactly when the cuts are not at the edges |
| Segments.TrimAppend | src/zerocopy/segment.h:108-128 | cutting the joined list is joining the cut ones |
| Segments.Segment.GetPart | src/zerocopy/segment.h:131-144 | the slice of the stream between the two iterators, and when its list is empty |
| Segments.Segment.Begin | src/zerocopy/segment.h:75-83 | begin() is the position of head; over an empty list it is told by the pointer |
| Segments.Segment.End | src/zerocopy/segment.h:85-94 | end() is the position of tail if and only if no fragment before the last two contains the tail pointer |
| Segments.Segment.DetachedTailIsLate | src/zerocopy/segment.h:85-94 | that is so for every segment whose fragments have allocations of their own |
| Segments.Segment.Walk | src/zerocopy/segment.h:96-97 | iterating from begin to end shows the segment's bytes if and only if end() is in the right place; over an empty list if and only if head and tail are equal |
| ExpIterators.ExpIterator.Pull | src/zerocopy/exp_iterator.h:57-63 | asking for more leaves the position and the bytes already there; at the buffer's end one read is made, elsewhere none; the length error exactly at the end with too little allowance |
| ExpIterators.ExpIterator.StaysPut | src/zerocopy/exp_iterator.h:55-75 | a position keeps its index while the buffer grows and the put area is promoted under it |
| ExpIterators.ExpIterator.Equal | src/zerocopy/exp_iterator.h:55-74 | equal to the end exactly when nothing more will ever come; reads once at the buffer's end, else not at all |
| ExpIterators.ExpIterator.Increment | src/zerocopy/exp_iterator.h:76-81 | moves one byte on; at the end of the buffer the handler is asked once, so that the position is the end only when nothing more comes; the length error exactly there when the size check fails |
| ExpIterators.ExpIterator.Dereference | src/zerocopy/exp_iterator.h:83-87 | the readable byte at the position |
| ExpIterators.Visit | src/zerocopy/exp_iterator.h:55-87 | one round of a walk shows the next byte of the whole stream |
| ExpIterators.Walk | src/zerocopy/exp_iterator.h:55-81 | walking from exp_begin to exp_end ends; it throws exactly when the size check fails, having shown the buffered bytes, and otherwise shows these followed by everything the handler delivers, in order, none skipped or repeated |
| Occurrences.Find | src/zerocopy/read_until.h:90-93 | the first occurrence, or the length when there is none |
| Occurrences.FoundStays | src/zerocopy/read_until.h:90-98 | more data does not change the first occurrence |
| ReadUntil.PartialSearch | src/zerocopy/read_until.h:90-91 | every position passed over is ruled out for good; the position returned is a match or the rest is the beginning of one |
| ReadUntil.DeadStays | src/zerocopy/read_until.h:106-118 | a position ruled out stays ruled out when more arrives |
| ReadUntil.SearchedAll | src/zerocopy/read_until.h:88-120 | searching from search_position_ is searching everything |
| ReadUntil.ReadUntilOp.Search | src/zerocopy/read_until.h:80-121 | finds the first occurrence, reports a full buffer, or moves search_position_ where nothing can start before |
| ReadUntil.ReadUntilOp.Start | src/zerocopy/read_until.h:76-130 | the first activation always reads; where its search will go on |
| ReadUntil.ReadUntilOp.Resume | src/zerocopy/read_until.h:131-148 | an activation after a read publishes what was read, and completes exactly when the delimiter has shown up, the read failed, or it brought nothing; the exact condition of the length error |
| ReadUntil.OneRead | src/zerocopy/read_until.h:131-135 | one more read extends the account of what arrived and where nothing was found |
| ReadUntil.FoundIsAnswer | src/zerocopy/read_until.h:94-98 | an occurrence found after some read is the one of the whole stream |
| ReadUntil.AsyncReadUntil | src/zerocopy/read_until.h:74-152 | completes after the first read that makes the delimiter appear, each piece that came being one read, with an answer that does not depend on how the stream is cut into reads; or throws the length error, if and only if a condition on the buffer and its first read holds before |
| ReadUntil.AnswerUnbuffered | src/zerocopy/read_until.h:88-152 | the answer for a delimiter not in the buffer: the end of its first occurrence in the stream, or a failure |
| ReadUntil.AnswerBuffered | src/zerocopy/read_until.h:123-152 | the answer for a buffered one: the end of the first occurrence behind it, or a failure when the peer closes first |
| ReadUntil.EachOneReadGrows | src/zerocopy/read_until.h:128-131 | one more read extends the account of the reads |
| ReadUntil.RightUnlessBuffered | src/zerocopy/read_until.h:123-137 | the answer is the end of the first occurrence in the whole stream if and only if the delimiter was not buffered at the start (or there was no put space, or it is empty and a read came) |
| ThreadPool.BasicThreadPool.Post | src/client/thread_pool.h:76-87 | the critical section of post is the step of the state machine |
| ThreadPool.BasicThreadPool.Pop | src/client/thread_pool.h:98-115 | the critical section of pop is the step of the state machine |
| ThreadPool.BasicThreadPool.Close | src/client/thread_pool.h:49-65 | the critical section of close is the step of the state machine |
| ThreadPool.PostKeeps | src/client/thread_pool.h:74-87 | a step of post keeps order, account, bound and wakeup invariants |
| ThreadPool.PopKeeps | src/client/thread_pool.h:98-115 | a step of pop keeps them, and never runs an empty task |
| ThreadPool.CloseKeeps | src/client/thread_pool.h:49-65 | the locked part of close keeps them, forced or not |
| ThreadPool.NotifyAllKeeps | src/client/thread_pool.h:67-67 | notify_all keeps them |
| ThreadPool.StepKeeps | src/client/thread_pool.h:41-117 | every step of every thread keeps them |
| ThreadPool.AlwaysInv | src/client/thread_pool.h:41-117 | they hold in every reachable state |
| ThreadPool.TakenIds | src/client/thread_pool.h:104-105 | the jobs taken are the first ones pushed, in order |
| ThreadPool.StopAhead | src/client/thread_pool.h:63-64 | a worker that has not stopped still has a stop task ahead of it |
| PoolTheorems.QueueBound | src/client/thread_pool.h:81-84 | while the pool is open the queue never holds more than max_size_ + 1 tasks |
| PoolTheorems.AllRanOnce | src/client/thread_pool.h:49-74 | when close has returned every task posted before it has run exactly once, tasks were taken in posting order, and each worker took one stop task |
| PoolTheorems.NoRaceNothingLate | src/client/thread_pool.h:49-87 | with no post under way at close, nothing enters the queue after it |
| PoolTheorems.AllEnteredRan | src/client/thread_pool.h:49-87 | a close that is not forced runs every job whose post was entered if and only if no post was under way |
| PoolTheorems.RaceLosesJob | src/client/thread_pool.h:76-87 | a run in which an accepted job never runs |
| PoolTheorems.DroppedAreRest | src/client/thread_pool.h:55-60 | a forced close drops the jobs not yet taken and no other |
| PoolTheorems.Conserved | src/client/thread_pool.h:41-117 | over any run no job is lost or doubled between the posters, the queue and the dropped |
| PoolTheorems.PostAllThenClose | src/client/mbox/index.h:44-82 | one client that posts a list and closes: exactly these jobs run, started in this order |
| PoolProgress.NoDeadlock | src/client/thread_pool.h:49-117 | a reachable state with no step left is idle with every job run, or over with every worker stopped and every poster settled or waiting |
| PoolProgress.LeftBehind | src/client/thread_pool.h:49-87 | after a close, forced or not, and with no step left: the exact number of posters left waiting, from what close found; after a forced close spurious wakeups can only save some, within exact bounds |
| PoolProgress.NobodyLeft | src/client/thread_pool.h:49-87 | nobody waits for good if and only if no more than max_size_ + 1 posters were inside post and, when forced, no more waited than there are threads |
| PoolProgress.QuietClose | src/client/thread_pool.h:49-87 | with no post under way at close, forced or not, nobody ever waits after it |
| PoolProgress.StepKeepsLate | src/client/thread_pool.h:49-117 | every step after close keeps the account of the posters inside post and of the tasks that can wake them |
| PoolProgress.PosterLeftWaiting | src/client/thread_pool.h:49-87 | a run after which a poster waits for good |
| PoolProgress.ForcedLeavesOne | src/client/thread_pool.h:55-60 | a run of a forced close after which a poster waits for good although the queue has room |
| PoolProgress.StepRanks | src/client/thread_pool.h:49-117 | every step that is not a spurious wakeup uses up some of a bounded rank |
| PoolProgress.RunsEnd | src/client/thread_pool.h:49-117 | the length of every run is bounded by the rank and its spurious wakeups |
| Fix.FixMessageParser.Consume | src/client/mbox/fix.h:110-144 | what one byte adds to the output |
| Fix.FixMessageParser.Parse | src/client/mbox/fix.h:52-75 | the slices added flatten to the transform of the piece, from whatever state the piece before left |
| Fix.FixMessageParser.ParseEnd | src/client/mbox/fix.h:77-94 | ends the last line with what is missing of CR LF, adds the end-of-data dot and resets |
| Fix.TransformConcat | src/client/mbox/fix.h:52-75 | the transform of a message is the same however it is cut |
| Fix.FixInPieces | src/client/mbox/fix.h:52-94 | any sequence of parse calls over a message, then parse_end, sends the same bytes |
| BodyScanner.NextTracks | src/common/rfc822_v2/smtp_body_parser.h:49-74 | the state is always the longest beginning of CRLF.CRLF that the input ends with |
| BodyScanner.ScannedStep | src/common/rfc822_v2/smtp_body_parser.h:45-77 | the saved position is where the part of the mark read so far began |
| BodyScanner.ParseBody | src/common/rfc822_v2/smtp_body_parser.h:37-83 | stops at the first CRLF.CRLF, on its first CR, or at the end if there is none |
| BodyScanner.ParseBodyCounting | src/common/rfc822/rfc2822_grammar.h:1141-1180 | the same position, and a match length that agrees with it |
| BodyScanner.ReadBody | src/server/coro/session.h:88-132 | finds the mark exactly when it is there, at the same position, and stays on its last byte |
| Transparency.Transparent | src/client/mbox/fix.h:77-94 | a fixed message holds CRLF.CRLF exactly once, at its end, if and only if the message is not empty; the scanners stop there whatever follows |
| Transparency.NoMarkInLines | src/client/mbox/fix.h:110-144 | no message makes the fixer send the mark inside its lines |
| Transparency.FixedIsCrLf | src/client/mbox/fix.h:52-94 | every LF sent follows a CR |
| Transparency.RoundTrip | src/client/mbox/fix.h:110-144 | taking the first dot off each dotted line gives the message, with one LF at its end if that was missing, and only CRs added before LFs |
| Transparency.CrsWhereNeeded | src/client/mbox/fix.h:110-144 | a CR is added before an LF that follows an even number of CRs, and nowhere else |
| Transparency.DottedLine | src/client/mbox/fix.h:52-94 | a two-line message and the bytes that are sent for it, in numbers |
| Transparency.WithCrsOnlyAdds | src/client/mbox/fix.h:110-144 | nothing but CRs, each just before an LF, is added |
| Transparency.CanonicalStays | src/client/mbox/fix.h:110-144 | text with CRLF line ends is sent as it is, but for the dots |
| Transparency.EndToEnd | src/common/rfc822_v2/smtp_body_parser.h:45-83 | the server cuts exactly the client's message out of its input, with its last line ended and CRs before its LFs, and is left with what followed |
| MboxIndex.Parse | src/client/mbox/index.h:85-106 | the size and address of the next message, and always some progress |
| MboxIndex.HeaderOfPrinted | src/client/mbox/index.h:92-104 | a printed size is read back if and only if it has at most ten digits |
| MboxIndex.HeaderOfLine | src/client/mbox/index.h:92-104 | any header line: its first digits, ten at most, are the size, and the message begins behind the line end whatever stands between |
| MboxIndex.ReadsBack | src/client/mbox/index.h:44-78 | reading an archive recovers exactly the printed messages if and only if all sizes have at most ten digits |
| MboxIndex.Scan | src/client/mbox/index.h:44-78 | the loop over any archive ends, with the entries of the specification |
| MboxIndex.FixEntry | src/client/mbox/index.h:66-76 | a task leaves its entry with buffers that flatten to the fixed message; its assertion holds exactly for a positive size |
| MboxIndex.RunTasks | src/client/mbox/index.h:66-76 | tasks finished in any order fill exactly their own entries, as long as no assertion fails |
| MboxIndex.Build | src/client/mbox/index.h:30-82 | for any printed archive without empty messages and any interleaving of the pool, every entry ends up with the fixed form of its message; an empty message, and nothing else, fails an assertion |
| ResponseParser.Parser.Consume | src/client/response_parser.h:37-115 | one byte, with the cases that fall into the next |
| ResponseParser.Parser.Parse | src/client/response_parser.h:20-33 | stops at the first byte that decides |
| ResponseParser.RunConcat | src/client/response_parser.h:20-33 | feeding the bytes in any pieces gives the same result and stopping point |
| ResponseParser.RunReply | src/client/response_parser.h:37-115 | a printed reply is accepted at its last byte with the last code and the texts joined by spaces; the state the parser is left in |
| ResponseParser.NoReset | src/client/response_parser.h:13-15 | without a reset the next reply is rejected at its first byte, or taken for more text after a bare LF |
| ResponseParser.RejectedStays | src/client/response_parser.h:37-115 | a rejected byte moves neither the state nor the response, which a new reply clears first |
| ResponseParser.TwoLines | src/client/response_parser.h:37-115 | a reply of two lines in numbers, with its code and text |
| ResponseParser.PrefixIsOpen | src/client/response_parser.h:20-33 | every proper prefix of a reply is indeterminate |
| ResponseParser.OnlyReplies | src/client/response_parser.h:37-115 | whatever is accepted is a printed reply, up to where the parser stops |
| ResponseParser.Verdicts | src/client/response_parser.h:37-115 | true exactly on what starts with a reply, indeterminate exactly on the beginning of one, false on all else |

## Left out

- Wrap-around of `size_t` and the `int` cast in `pbump` (`streambuf.h:697`): sizes are unbounded, so a total beyond the address space is not modelled. `ReadUntil` asks for fewer bytes than a `size_t` can count, which makes its buffer-full branch unreachable.
- Allocators, reference counts, moves and `raii_wrapper_fragment`: a fragment is a window of an array, and objects stand for shared pointers.
- The inline `sputc`/`sbumpc` paths of `std::streambuf`, `pbackfail` and the code under `#if 0`: only the virtual functions are modelled, and `sgetc` in `Runs.Look`.
- The default underflow handler, which answers false without reading, is the model's closed socket; the handler of `server/coro/zc_session.h` without its timer is the model's open one.
- What happens after an assertion fails, or after the program has read outside of a container: `ok` is false then, and the state is the old one or, after `StreamBuf.Consume`, not described.
- Comparing iterators or expanding iterators of two different buffers.
- Network.Socket.ReadSome: a read that fails is the end of the stream, after which nothing more comes; strands, coroutines, timers and the accept loops.
- Memory ordering of `running_`, which every section reads under the mutex except through `volatile`; a pool that is opened again after `close`; tasks that throw; posting an empty task.
- PoolTheorems.AllEnteredRan: says nothing about a forced close, for which `PoolTheorems.DroppedAreRest` says what is dropped.
- PoolProgress.LeftBehind: says how many posters are left waiting; which ones depends on the interleaving.
- Segments.Segment.Walk: segments with an empty window, which `append` can leave in the middle: an increment enters such a window at its end and reads on behind it.
- Skipping white space before the body scanner runs, the grammars around it, and `smtp_end_parser`.
- The ordering of the index by size and the look-up functions of the multimap: `MboxIndex` keeps the entries in the order of the archive.
- An archive that ends in the middle of a message: `MboxIndex.Scan` says which addresses come out, but the task that would read past the end of the map is not run.
- The state machine of the server (`smtp_msm.h`), statistics, arguments and configuration, `unfolding.h`, `inbuf.h` and `outbuf.h`: easier members or display.
