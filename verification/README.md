# Verification model of fuseuring

fuseuring serves one backing file as `/volume` over FUSE. A single thread runs an event loop over an
io_uring; n coroutine tasks, each owning a slot (a pipe, a header buffer, a scratch buffer and a cloned
fuse fd), take requests and answer them by chains of linked operations. This project models that program
and proves what it relies on. The kernel is the environment: it chooses every completion value, order and
short transfer within what the manual pages of io_uring and splice allow, and every statement is about all
its choices.

| file | what it models |
|---|---|
| `Bytes.dfy`, `FuseKernel.dfy` | little-endian records, bit operations, the layouts and constants of the protocol |
| `SubmissionRing.dfy` | `get_sqe`: the 32-bit wrapping ring counters and the reservation of room for chains |
| `Completion.dfy` | `IoUringAwaiter` and `fuseuring_handle_cqe`: counting completions, results in their places |
| `EventLoop.dfy` | `run`, `fuseuring_submit`, the slot pool and batch reaping with re-entrant resumption |
| `FrameCache.dfy` | `malloc_cache`, the linked list of freed coroutine frames |
| `Coroutine.dfy` | promises, tasks, `final_suspend`: who owns, awaits and destroys which frame |
| `CoroutineSteps.dfy` | what each of their actions does frame by frame, and that no run is ever stuck |
| `KernelOps.dfy` | the effect of the kernel's operations on one slot and the rules of linked chains |
| `RequestEngine.dfy`, `Handlers.dfy`, `FileRequests.dfy`, `Dispatch.dfy` | `queue_fuse_read`, `read_rbytes`, `send_reply` and the handlers, in place on the slot's buffers |
| `Directory.dfy` | `add_dir` and the listing, with the parser a reader would use |
| `Replies.dfy` | what the answers mean: independence of fragmentation, one atomic file operation each |
| `ReplyFields.dfy` | the answers field by field at their byte offsets, from the bytes of the request |
| `SlotLayout.dfy`, `Interleaving.dfy` | the set-up loop, the frame theorem between slots, linearizability of all slots together |
| `Serving.dfy` | from every state of that machine an idle slot can serve any READ that fits and any WRITE |
| `Counting.dfy` | sizes of finite sets of numbers, for the counting arguments |

Objects whose fields the program updates are classes here (`Ring`, `CompletionRing`, `FuseIoContext`,
`IoUringAwaiter`, `MallocCache`, `Runtime`, `FuseIo`, `ByteVector`); their methods are proved against
functions on values, and the theorems are about those functions and about whole runs.

Four conventions. Runs of loops that may wait for ever are followed for a number of kernel calls, `budget`;
as the statements hold for every budget they hold for every finite prefix of every run. A submission ring is
`reliable` if the kernel takes every submit, any prefix of the queue at a time; what needs that says so.
`WellFormed` says what is assumed of a request: its length field is its length, and a LOOKUP carries a name.
An operation has failed, for the task that waits for it, if no whole header was delivered, nothing was read, or a
part of a reply did not move its full length (`KernelOps.Fails`); a short splice into the file is answered instead.

The parts are joined. What a task does to its slot in the event loop is `Dispatch.TaskResult`, which is what
`Dispatch.QueueFuseRead` ensures of the whole task; that a task begins on an empty pipe, which the latter needs,
is what `EventLoop.FuseIoContext.Run` proves of every request not preceded, on the same slot, by a WRITE that left
payload behind. `Replies` shows that a task's effect is the atomic file operation which `Interleaving` puts in its
history; there every message sent is an answer of such an operation or, if its chain broke, the beginning of one,
and every change of the file is that of one request, answered, under way or failed. `SlotLayout.ActsOnOwnSlot`
shows that no task changes another's slot. That requests are served at all is said on both levels: the result of
`Dispatch.QueueFuseRead` is 0 if and only if every entry was granted, no operation failed and the request has the
size its opcode calls for, and `Serving.EveryRequestIsServed` gives the steps that lead to the answer. A task may read another's memory: a reply longer than the scratch
buffer, which a stale length field can ask for, goes on with the buffers behind (`SlotLayout.ReplySpansSlots`).

Where the code does not do what it seems meant to do, the model follows the code and the exact condition is
proved:

* an 8-bit countdown: an awaiter is resumed exactly once if and only if it waits for 1 to 256 operations
  (`Completion.ResumedExactlyOnce`);
* `handle_read` cuts the size in 64-bit arithmetic: right if and only if the offset is inside the file, up to
  an accident of 2^32 (`FileRequests.ClampIsRight`, counterexample `FileRequests.ClampWraps`);
* `handle_read` on another node sends as many bytes as the unset length field happens to say: right if and only
  if that is 16 (`FileRequests.HandleRead`, and for the whole task, with where those bytes come from,
  `Replies.StrayReadRight`);
* `handle_write` on its error paths sends a reply behind the payload still in the pipe. If the task ends well, the
  pipe is empty if and only if there was no payload, or it was for node 3, of the right length, and the kernel
  took it whole (`FileRequests.HandleWrite`, `Dispatch.QueueFuseRead`); a request that fails, the chain that
  answers it, and what every slot that answers such a request is left with are `Dispatch.StrayWrite`,
  `Dispatch.StrayWriteFails` and `Dispatch.StrayWriteLeavesPayload`;
* `handle_open` reads the flags after overwriting them if the body lies in the scratch buffer: for the whole task
  the reply is right if and only if all of the request came with the header, or the number 32 and the flags differ
  only in bits set anyway (`Replies.OpenAnsweredRight`, counterexample `Replies.OpenFlagsWrong`);
* four bytes of a GETATTR reply are never written: two replies agree if and only if those stale bytes do or
  the node does not exist (`Replies.SameGetattrReply`);
* the requeue loop ends if and only if as many reservations are granted as slots were free, however many were
  refused before and whatever `last_rc` is (`EventLoop.FuseIoContext.Requeue`, `EventLoop.RequeueIgnoresFailure`);
* `queue_fuse_read` asks for its second entry even if the first was refused, and an entry so obtained is
  queued unprepared (`SubmissionRing.Ring.ReadPrologue`).

## Model

| member | source | states |
|---|---|---|
| SubmissionRing.DistanceSurvivesWrap | fuse_io_context.h:130-135 | the 32-bit difference of the wrapped counters is the true number of unconsumed entries, for runs of any length |
| SubmissionRing.MaskFindsPosition | fuse_io_context.h:137 | masking the wrapped tail gives the true position modulo the ring size |
| SubmissionRing.TailIsFree | fuse_io_context.h:134-138 | the place at the masked tail is that of no unconsumed entry |
| SubmissionRing.Ring.TakeTail | fuse_io_context.h:137-139 | handing out an entry never overwrites one the kernel has not taken |
| SubmissionRing.Ring.Reserve | fuse_io_context.h:125-154 | for a chain: on success the rest of the chain fits without submitting; with room there is no submit; it fails if and only if the kernel refuses a submit with another error than EBUSY, and then nothing is queued |
| SubmissionRing.Ring.GetOne | fuse_io_context.h:156-181 | for a single entry: no submit and no failure while the ring is not full, ring_submit is set, and it fails if and only if the one submit is refused in any way |
| SubmissionRing.Ring.GetSqe | fuse_io_context.h:123-182 | both together, for every peek and every answer of the kernel |
| SubmissionRing.Ring.IoUringSubmit | fuse_io_context.h:142-152 | the assumed contract of a submit: refused, or a prefix of the queue is taken, in order, read at the masked head |
| SubmissionRing.Ring.QueueChain | fuseuring_main.cpp:551-576 | after get_sqe(k) succeeds the k-1 plain calls succeed without a submit, so the chain lies in consecutive places behind everything queued before |
| SubmissionRing.Ring.ReadPrologue | fuseuring_main.cpp:697-700 | both entries, or none, except that after a refusal the second may be queued unprepared |
| Completion.CountdownAndPlaces | fuse_io_context.cpp:22-30 | in any order of completions the countdown is the number not yet handled and each result is in the place of its own entry |
| Completion.ResumedExactlyOnce | fuse_io_context.h:38-62 | once all completed, the coroutine was resumed exactly once, with all results in place, if and only if there are 1 to 256 entries |
| Completion.NotResumedEarly | fuse_io_context.cpp:25-30 | no resumption before the last completion |
| Completion.IoUringAwaiter.constructor | fuse_io_context.h:53-62 | a new awaiter is the model's start state |
| Completion.IoUringAwaiter.AwaitResume | fuse_io_context.h:80-89 | each entry that completed has the result of its own completion in its place, the others -1; if all completed there is nothing else |
| Completion.HandleCqe | fuse_io_context.cpp:14-33 | a completion changes exactly the awaiter it names, and one without user data nothing |
| Completion.HandleAll | fuse_io_context.cpp:95-104 | in any mixture every awaiter sees exactly its own completions, in order |
| Completion.RunToEnd | fuse_io_context.cpp:95-104 | in any mixture in which all its entries complete, an awaiter is resumed once, with all results |
| EventLoop.CompletionRing.Peek | fuse_io_context.cpp:95 | the loop's test, on wrapped counters, finds exactly the next posted completion, or none if all were visited |
| EventLoop.CompletionRing.Advance | fuse_io_context.cpp:105 | the head goes past exactly the entries visited, though head and count are 32-bit |
| EventLoop.TakeKeeps | fuse_io_context.h:481-486 | taking a slot keeps the ledger: free and held slots partition the n slots, countdowns are the outstanding operations |
| EventLoop.ReleaseKeeps | fuse_io_context.h:488-491 | giving a slot back keeps the ledger |
| EventLoop.QueueKeeps | fuse_io_context.h:53-62 | queueing one to three operations and waiting keeps the ledger |
| EventLoop.HandleKeeps | fuse_io_context.cpp:22-30 | a completion finds a positive countdown at its task and keeps the ledger |
| EventLoop.NextWasQueued | fuse_io_context.cpp:22-26 | whatever is posted was queued and not handled before, so no task is resumed without waiting |
| EventLoop.SlotsConserved | fuse_io_context.h:417-445 | free slots and slots of live tasks are n together at every step |
| EventLoop.OutstandingAtWait | fuse_io_context.cpp:83-89 | with no slot free, every task waits for an operation, and between n and 3n are outstanding |
| EventLoop.RoomWhileRunning | fuse_io_context.h:132-140 | while a task runs three more entries stay within 3n |
| EventLoop.CompletionRingFits | fuseuring_main.cpp:1088 | a completion ring of twice at least 2n entries holds 3n completions |
| EventLoop.RequeueIgnoresFailure | fuse_io_context.cpp:83-86 | of the calls which Requeue records: as many slots stay free as calls granted fall short, whatever last_rc is; with none granted the loop goes on |
| EventLoop.FuseIoContext.GetFuseIo | fuse_io_context.h:481-486 | the last free slot is taken; the request begun there is noted with what its pipe holds |
| EventLoop.FuseIoContext.ReleaseFuseIo | fuse_io_context.h:488-491 | the slot is free again and the ledger kept |
| EventLoop.FuseIoContext.QueueReadSetRc | fuse_io_context.cpp:115-123 | a granted call takes exactly one slot and leaves its task waiting for two operations; a refused one costs a submit, frees the slot again and sets last_rc to -1 |
| EventLoop.FuseIoContext.EndTask | fuse_io_context.cpp:117-122 | a task ends with any result which QueueFuseRead allows from its slot; a failed one sets last_rc, and none resets it |
| EventLoop.FuseIoContext.RecordResult | fuse_io_context.cpp:117-122 | a task that ended with 0 has left its pipe empty unless a request answered on its slot left payload behind, and no other slot changed |
| EventLoop.FuseIoContext.HandleCqe | fuse_io_context.cpp:14-33 | the next posted completion is handled; its task runs if it was the last one it waited for |
| EventLoop.FuseIoContext.FuseuringSubmit | fuse_io_context.cpp:35-75 | waits out EBUSY if something was queued, gives 18 if and only if the kernel refuses otherwise, and else ends with a submit taken and ring_submit cleared |
| EventLoop.FuseIoContext.ReapBatch | fuse_io_context.cpp:91-105 | though tasks queue and submit meanwhile, every completion posted by the end is handled once, in order, and the head advances past exactly those |
| EventLoop.FuseIoContext.Requeue | fuse_io_context.cpp:83-86 | it ends with no slot free if and only if as many calls were granted as slots were free; refusals set last_rc and do not end it |
| EventLoop.FuseIoContext.Turn | fuse_io_context.cpp:81-105 | one turn keeps all invariants, blocks exactly once, and ends with all that was posted handled |
| EventLoop.FuseIoContext.Run | fuse_io_context.cpp:77-113 | over whole runs: at every blocking wait no slot is free, every task waits for an operation and n to 3n are outstanding, no more than the completion ring holds, and all that was posted has been handled, once and in order; every request is begun on an empty pipe unless one answered before on the same slot was a WRITE with data for another node, of a wrong length or not taken whole; no submit from get_sqe if the ring holds 3n; 18 only after a refused submit, 19 only after a failed task and a whole batch, 17 never; with such a ring a run is followed to its last kernel call |
| FrameCache.MallocCache.Malloc | fuse_io_context.h:202-212 | the block freed last or a new one, never one in use |
| FrameCache.MallocCache.Free | fuse_io_context.h:214-219 | the block becomes the head of the acyclic list, disjoint from blocks in use |
| FrameCache.MallocCache.Clear | fuse_io_context.h:192-200 | ends, and releases every cached block once |
| FrameCache.Churn | fuse_io_context.h:278-294 | over any sequence of creations and ends: no block handed out twice, created blocks are in use or released once |
| Coroutine.StepKeeps | fuse_io_context.h:221-405 | every step of any coroutine keeps the ownership invariant |
| Coroutine.RunsKeep | fuse_io_context.h:221-405 | so does every run, of any nesting depth |
| Coroutine.DestroyedAtMostOnce | fuse_io_context.h:241-361 | no frame is destroyed twice or before its body ended; an ended one not destroyed is held by an unfinished frame or by run's temporary |
| Coroutine.DestroyedExactlyOnce | fuse_io_context.h:241-361 | when all bodies have ended, every frame was destroyed exactly once |
| Coroutine.NeverUsedAfterwards | fuse_io_context.h:346-388 | no action of any run touches a destroyed frame |
| Coroutine.DetachedHasNoAwaiter | fuse_io_context.h:249-255 | a detached frame has no awaiter, so final_suspend never destroys one |
| Coroutine.AwaitsGiveWhatWasReturned | fuse_io_context.h:368-401 | the co_awaits of a frame give, in order, exactly what the awaited children co_returned, before or after being awaited |
| Coroutine.ReturnWakesParent | fuse_io_context.h:256-260 | the end of an awaited child resumes its parent at once, with the result set |
| Coroutine.Runtime.DestroyLocals | fuse_io_context.h:346-361 | destroying task objects one by one destroys the done coroutines and detaches the others |
| Coroutine.Runtime.SuspendFinally | fuse_io_context.h:247-265 | final_suspend in place does what the model's step does |
| Coroutine.Runtime.ReturnFrom | fuse_io_context.h:313-320 | co_return: value stored unless detached, locals destroyed, final suspend |
| Coroutine.Runtime.AwaitTaskOf | fuse_io_context.h:368-401 | awaiting a task with a result gives it at once and nobody is suspended; another task is told its awaiter, who is suspended |
| Coroutine.Runtime.LoopStep | fuse_io_context.cpp:83-86 | what the loop does between resumptions keeps the invariant |
| Coroutine.Runtime.BodyStep | fuse_io_context.cpp:115-123 | what a running coroutine does keeps the invariant |
| CoroutineSteps.AwaitOfEnded | fuse_io_context.h:368-401 | in any run, co_await of an ended task gives the caller the value that was co_returned, and changes nothing else |
| CoroutineSteps.AwaitOfUnended | fuse_io_context.h:368-388 | of another one: the caller leaves the stack, suspended there and known as its awaiter |
| CoroutineSteps.AwaitOfIo | fuse_io_context.h:64-79 | waiting for operations suspends the caller alone |
| CoroutineSteps.LoopResumes | fuse_io_context.cpp:27-30 | the loop resumes exactly that frame |
| CoroutineSteps.SpawnRuns | fuse_io_context.h:237-239 | a call runs a new frame at once, on top of the caller, who holds its task |
| CoroutineSteps.LoopSpawnRuns | fuse_io_context.cpp:83-86 | the same for a call by the loop |
| CoroutineSteps.DropOfTask | fuse_io_context.h:346-361 | a task object dies: its coroutine is destroyed if it ended, and detached, running on, if not |
| CoroutineSteps.LoopDrops | fuse_io_context.h:346-361 | the same for the task object of the loop |
| CoroutineSteps.ReturnEnds | fuse_io_context.h:241-320 | co_return: which frames get what result, are resumed, destroyed or detached, and that all others stay as they are |
| CoroutineSteps.ReturnStack | fuse_io_context.h:256-260 | the awaiter takes the place of the ended body on the stack, or the body below goes on |
| CoroutineSteps.ReturnDestroys | fuse_io_context.h:249-255 | exactly the ended tasks among the locals are destroyed, the newest first, then the frame itself if it is detached |
| CoroutineSteps.MayHappen | fuse_io_context.h:221-405 | nothing but what the C++ rules ask is needed for any action to happen in any run |
| CoroutineSteps.EverythingCanEnd | fuse_io_context.h:221-405 | no run is stuck: from its every state some actions end all bodies and destroy every frame exactly once |
| KernelOps.ThreeOps | fuseuring_main.cpp:401-422 | a chain whose first operations move their full length runs to its end, in order |
| KernelOps.UnrollChain | fuseuring_main.cpp:401-422 | a result that is not the full length cancels the rest of a soft-linked chain |
| RequestEngine.FuseIo.ReadRbytes | fuseuring_main.cpp:37-120 | for every sequence of short reads: exactly the next rbytes of the body, and a zero if asked, in the buffer the code chooses; exactly those left the pipe; null if and only if an entry was refused or a read failed |
| RequestEngine.ReadOn | fuseuring_main.cpp:72-103 | two reads, the second behind the first, have the effect of one read of both lengths |
| RequestEngine.FuseIo.ReadRest | fuseuring_main.cpp:70-104 | the loop ends, by the bytes still wanted, and gathers them in order |
| RequestEngine.FuseIo.SendReply | fuseuring_main.cpp:122-154 | from the pipe's contents and the scratch buffer, for any length field: the message sent, none for 0, and what stays in the pipe; past the buffer's end it is unknown memory; 0 if and only if both entries were granted and both operations moved that length |
| RequestEngine.FuseIo.SendVector | fuseuring_main.cpp:156-190 | the same for a reply in a vector |
| RequestEngine.FuseIo.ReplyHeader | fuseuring_main.cpp:192-202 | the 16-byte reply with an error, as for an unknown opcode: what is sent and what stays in the pipe |
| Handlers.SendAttr | fuseuring_main.cpp:204-238 | byte for byte, the attribute reply to nodes 1 and 3 or EACCES |
| Handlers.HandleGetattr | fuseuring_main.cpp:240-255 | the attribute reply about the file handle's node or the header's (which one, `ReplyFields.GetattrAnswer`); 0 if and only if it was sent whole |
| Handlers.HandleSetattr | fuseuring_main.cpp:257-276 | the reply about fh if it is not 0; nothing is set |
| Handlers.HandleLookup | fuseuring_main.cpp:278-320 | node 3 for the name "volume", node 1 for any other, though the reply overwrites the name |
| Handlers.HandleOpen | fuseuring_main.cpp:342-360 | the reply, with 32 taken for the flags if the body lies in the scratch buffer |
| Handlers.HandleReaddir | fuseuring_main.cpp:654-690 | the encoded listing behind a header with the right length |
| Directory.AlignIsRoundUp | fuse_kernel.h:765-766 | the 64-bit mask form is rounding up to a multiple of 8 |
| Directory.FieldsReadBack | fuse_kernel.h:756-768 | every field of a record is read back from its place |
| Directory.RoundTrip | fuse_kernel.h:756-768 | a parser stepping by FUSE_DIRENT_SIZE recovers exactly the encoded entries |
| Directory.RecordsAligned | fuse_kernel.h:765-768 | every record starts 8-aligned behind an 8-aligned start |
| Directory.EncodeAllAppend | fuseuring_main.cpp:639-652 | repeated add_dir is the encoding of the whole list |
| Directory.AddDir | fuseuring_main.cpp:639-652 | one record with zero padding is appended; earlier bytes are unchanged |
| Directory.ReaddirReplyReads | fuseuring_main.cpp:664-689 | the listing parses back, and its length field is its length |
| FileRequests.ClampIsRight | fuseuring_main.cpp:382-389 | the cut size is what may be read if and only if the offset is inside the file, up to a multiple of 2^32 |
| FileRequests.ClampWraps | fuseuring_main.cpp:382-389 | an offset behind the end for which 2^32 - 1 bytes are asked for |
| FileRequests.ReadChainServes | fuseuring_main.cpp:392-452 | a chain that passes the checks sent header and file bytes, nothing else, and left the pipe empty |
| FileRequests.ReadResults | fuseuring_main.cpp:424-452 | the checks of the three results pass if and only if they are 16, the size and the reply's length, that is, if no operation failed |
| FileRequests.ClampInPlace | fuseuring_main.cpp:382-389 | the size stored over the body and read back is the cut size; the offset beside it is untouched |
| FileRequests.HandleRead | fuseuring_main.cpp:362-453 | 0 if and only if the entries were granted and every operation moved its full length; then on node 3 one read of the cut size was served, and on another node a message as long as the stale length field says was sent, none if it says 0, which is the right one if and only if it says 16 |
| FileRequests.NotFoundRight | fuseuring_main.cpp:373-380 | a message made with a stale length is the ENOENT reply if and only if the length was 16 |
| FileRequests.WriteChainRuns | fuseuring_main.cpp:551-578 | what the chain leaves by the result of its first splice: nothing done; part written and the reply cancelled; all written, and the reply sent if the other two operations are full |
| FileRequests.WriteChainServes | fuseuring_main.cpp:542-604 | a chain that passes the checks replaced exactly the range by the payload and confirmed it |
| FileRequests.HandleWrite | fuseuring_main.cpp:455-605 | 0 if and only if the entries were granted and no part of a reply was cut; then, by the kernel's answer to the payload splice, which of five things that means, that many payload bytes went to the file, and the pipe is empty if and only if there was no payload, or it was for node 3, of the right length and taken whole |
| FileRequests.WriteDrains | fuseuring_main.cpp:466-491 | that condition from what was done, and under it the write was served |
| Dispatch.FetchRuns | fuseuring_main.cpp:697-712 | the hard link lets the read follow a splice shorter than its room |
| Dispatch.Fetch | fuseuring_main.cpp:697-750 | however the reads are cut, header bytes in place and the rest in the pipe, if and only if nothing failed |
| Dispatch.ReadBody | fuseuring_main.cpp:756-818 | it goes on if and only if the request has the size its opcode calls for and nothing failed; read_rbytes is never asked for less than was read; afterwards only a WRITE's payload is in the pipe |
| Dispatch.AnswerOpen | fuseuring_main.cpp:342-360 | the exact reply: the flags asked for if all of the request came with the header, else 32 in their place |
| Dispatch.AnswerRead | fuseuring_main.cpp:362-453 | READ of the file served, or of another node with the stale length by where the body was read |
| Dispatch.AnswerWrite | fuseuring_main.cpp:455-605 | WRITE answered by the kernel's answer to the payload splice |
| Dispatch.Answer | fuseuring_main.cpp:822-874 | every opcode gets the exact reply of its handler, by the request's bytes, how many of them came with the header, and the kernel's answer to a payload splice |
| Dispatch.QueueFuseRead | fuseuring_main.cpp:692-875 | from an empty pipe, for every kernel: 0 if and only if every entry was granted, no operation failed and the request has the size its opcode calls for; then the request was answered, and the pipe is empty if and only if it was not a WRITE with data that is for another node, of a wrong length or not taken whole |
| Dispatch.FullWriteIsServed | fuseuring_main.cpp:542-604 | a WRITE for node 3 of the right length, taken whole, that ends with 0: exactly the payload in the file at its offset, the success reply, an empty pipe |
| Dispatch.StrayWrite | fuseuring_main.cpp:466-473 | a one-byte WRITE to any other node is a well-formed request that leaves payload behind |
| Dispatch.StrayWriteFails | fuseuring_main.cpp:129-154 | the send_reply chain that answers it, run in full: the byte and 15 bytes of the reply are sent, the last one stays queued |
| Dispatch.StrayWriteLeavesPayload | fuseuring_main.cpp:466-473 | any slot that answered a WRITE with data for another node sent the first 16 bytes of payload and reply, the payload first, and has the rest queued, as many bytes as the payload has |
| Replies.SameReply | fuseuring_main.cpp:692-875 | SETATTR, LOOKUP, READDIR, RELEASE and unknown requests: the same reply however the bytes came in and whatever the buffers held |
| Replies.SameGetattrReply | fuseuring_main.cpp:204-255 | GETATTR: the replies agree if and only if the stale four bytes do or the node does not exist |
| Replies.OpenFlagsRight | fuseuring_main.cpp:350-357 | a reply made with 32 for the flags is right if and only if 32 and the flags differ only in bits set anyway |
| Replies.OpenAnsweredRight | fuseuring_main.cpp:322-360 | the whole task: the reply to OPEN or OPENDIR is right if and only if all of the request came with the header or that is so |
| Replies.StrayReadRight | fuseuring_main.cpp:373-380 | the whole task: the reply to a READ of another node is right if and only if the bytes that lie in the length field, the request's or stale ones, say 16; there is none if and only if they say 0 |
| Replies.OpenFlagsWrong | fuseuring_main.cpp:330-357 | flags 0 are answered wrongly then |
| Replies.ReadReturnsTheFile | fuseuring_main.cpp:362-453 | READ inside the file: header with length 16 + m, then the file's bytes from off, m = min(size, fsize - off) |
| Replies.ReadIsAtomic | fuseuring_main.cpp:362-453 | an answered READ is one atomic operation of a plain byte file |
| Replies.WriteIsAtomic | fuseuring_main.cpp:455-605 | a WRITE that ended well and whose data the log of the file shows taken whole is one atomic operation, its reply the success record, its pipe empty |
| Replies.WriteDrainsIfTaken | fuseuring_main.cpp:455-605 | a WRITE with data that ended well drained its pipe if and only if the log shows it taken whole |
| Replies.SameFileReply | fuseuring_main.cpp:362-605 | READ, and WRITE taken whole: reply and effect depend on the request and the file's contents alone |
| Replies.ReadAfterWrite | fuseuring_main.cpp:362-605 | a read of a range just written gives the written data |
| Bytes.LittleEndian | fuse_kernel.h:756-763 | a field of a record is the sum of its bytes, the lowest first, as the machines the program runs on lay it out |
| ReplyFields.GetattrAnswer | fuseuring_main.cpp:204-255 | GETATTR from bytes to bytes: the node is at 48 if bit 0 at 40 is set, else at 16; for 3 and 1 the attributes at their offsets, all else zero, for others error 13 |
| ReplyFields.SetattrAnswer | fuseuring_main.cpp:204-276 | SETATTR likewise, about the file handle at 48 unless it is 0 |
| ReplyFields.LookupAnswer | fuseuring_main.cpp:278-320 | LOOKUP: node 3 and the volume's attributes exactly for the name "volume", else node 1 and the directory's |
| ReplyFields.OpenAnswer | fuseuring_main.cpp:322-360 | OPEN and OPENDIR: the handle, and every bit of the flags |
| ReplyFields.ReleaseAnswer | fuseuring_main.cpp:607-637 | RELEASE and RELEASEDIR: a bare header |
| ReplyFields.UnknownAnswer | fuseuring_main.cpp:192-202 | any other opcode: error 38 |
| ReplyFields.ReaddirAnswer | fuseuring_main.cpp:654-690 | READDIR: the three entries with inodes, cookies and names at offset 0, none elsewhere |
| ReplyFields.ReadAnswer | fuseuring_main.cpp:362-453 | READ from bytes to bytes: the file's bytes from the offset at 48, as many as are there and asked for at 56 |
| ReplyFields.WriteAnswer | fuseuring_main.cpp:542-604 | WRITE taken whole: exactly that range of the file has the bytes behind the first 80, and the reply says how many |
| ReplyFields.UnservedWriteAnswer | fuseuring_main.cpp:466-593 | any other WRITE: the error or short count that answers it, behind what is left of the payload |
| ReplyFields.StrayReadAnswer | fuseuring_main.cpp:373-380 | READ of another node: error 2, if the length field happens to be right |
| SlotLayout.SetUpSlots | fuseuring_main.cpp:1127-1168 | the loop gives slot i its own file numbers and addresses in the registered tables |
| SlotLayout.SlotsDisjoint | fuseuring_main.cpp:1127-1168 | regions and file numbers of different slots do not meet and lie within the registered buffers |
| SlotLayout.ActsOnOwnSlot | fuseuring_main.cpp:1127-1168 | what a slot submits, by file numbers and addresses, acts on its own part as the one-slot semantics says, also if a write is longer than its buffer, and changes no other slot's |
| SlotLayout.ReplySpansSlots | fuseuring_main.cpp:122-154 | byte k of a reply of any length is byte k mod 4096 of the scratch buffer of the slot k / 4096 places further on |
| Interleaving.StepKeeps | fuseuring_main.cpp:362-605 | every step of every slot keeps the invariant of replies and answers |
| Interleaving.StepAccounts | fuseuring_main.cpp:362-605 | and keeps every entry of the file's history the effect of exactly one request |
| Interleaving.MemoryIsRequest | fuseuring_main.cpp:723-818 | when a chain is made, header and body in the slot's memory are those of the request, wherever the body lies and however the reads were cut, and only a payload is queued |
| Interleaving.MadeOfMemory | fuseuring_main.cpp:362-605 | chain and reply header depend on those 80 bytes alone |
| Interleaving.EveryRunIsLinearizable | fuseuring_main.cpp:362-605 | in every interleaving of n slots, each reading its request in any pieces and making its chain from its own memory, with operations that fail or move less than asked: every answered READ and WRITE is an atomic operation at its file splice, in an order that respects real time; every message sent is such an answer or, of a chain that broke, the beginning of it; and every effect on the file is that of exactly one request, answered, under way or failed |
| Interleaving.FileIsPlain | fuseuring_main.cpp:362-605 | at the end of every run the backing file is a plain file to which the requests of its history were applied one by one, WRITEs whole unless their chain broke |
| Interleaving.AllAnswered | fuseuring_main.cpp:362-605 | when every slot is idle, answers and effects match one to one |
| Interleaving.ReadSeesHistory | fuseuring_main.cpp:362-605 | each reply is that of the plain file as the requests before it left it, and it leaves the file which the next ones find |
| Serving.EveryRequestIsServed | fuseuring_main.cpp:362-605 | at every point of every run of all slots, an idle slot can take any READ that fits the file and any WRITE, its body read with the header, in part or behind it, and seven or nine steps of its own answer it with one atomic operation; nothing of any other slot changes |

## Left out

- Mounting, opening and cloning `/dev/fuse`, INIT, stat, threads, `main.cpp`, build and benchmark scripts: system-call plumbing.
- The inside of liburing and the kernel: memory ordering, pipe capacity, page moves. A splice is a copy of bytes, a splice from the fuse fd delivers one whole request, a submit is refused or takes a prefix of the queue.
- Liveness and fairness: nothing is claimed about when the kernel accepts or completes; `budget` cuts a run after a number of kernel calls.
- EventLoop.FuseIoContext.Run: a run is not followed beyond a refused reservation after which `queue_fuse_read` is handed an entry it never prepares (`SubmissionRing.Ring.ReadPrologue`), as that entry is queued with whatever it held.
- EventLoop.FuseIoContext.EndTask: what a task did to its slot is put down when it ends, not operation by operation; a task begun on a pipe that is not empty may do anything.
- EventLoop.FuseIoContext.QueueReadSetRc: likewise ends the run that is followed when a plain `get_sqe` is granted after a refused reservation.
- EventLoop.FuseIoContext.Requeue: the same, as it makes these calls.
- SlotLayout.ActsOnOwnSlot: operations on a coroutine's own vectors, which lie in no registered buffer, are not given addresses.
- Interleaving.EveryRunIsLinearizable: a slot is not followed after its task failed or its chain broke; the program then answers a WRITE whose payload was not taken whole with an error or a short count (`FileRequests.HandleWrite`). Requests about other nodes are left out, and the cut size is not stored back over the body, which no later step reads.
- RequestEngine.FuseIo.GetSqe: only grants or refuses; that the later calls for a chain are granted is `SubmissionRing.Ring.QueueChain`.
- Dispatch.Fetch: a refused entry in the header loop, which the program dereferences, ends the task with -1 here.
- Dispatch.QueueFuseRead: requests are `WellFormed`; an empty LOOKUP body, for which the program passes an uninitialised address, is not dispatched.
- Opcodes to which the protocol wants no reply are answered ENOSYS like any other unknown one, as in the program.
- Completion.HandleCqe: the template punning through `IoUringAwaiter<int>` is not modelled; results are indexed.
- Coroutine.Runtime.BodyStep: coroutine bodies are any sequence of the modelled actions; exceptions (the program aborts) and moved-from task objects are not modelled.
- FrameCache.Churn: frames larger than the cached size, which go to the system allocator, are not modelled.
- File sizes are below 2^63 where 64-bit wrap-around matters, and the rounding of block counts is not wrapped.
- Commented-out code, such as the small-write path of `handle_write`, and debug output.
