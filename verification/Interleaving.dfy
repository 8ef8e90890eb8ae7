/**
  All slots at once: READ and WRITE requests on node 3, their operations interleaved in any order.
  Every reply is the answer of one atomic operation on a plain byte file, and these operations,
  taken in the order of their splices to or from the backing file, are a history of the file, in which
  there is nothing but operations of requests: answered ones, those under way, and failed ones.
 */
module Interleaving {
  import opened Bytes
  import opened FuseKernel
  import opened KernelOps
  import opened SlotLayout
  import opened FileRequests
  import opened Counting

  /**
    Where the coroutine of a slot is. `start` is the length of the log when its request was taken,
    `mem` the 80 bytes of header and body it found in its buffers, of which it made its chain, and
    `at` the place of its file operation in the log, once done, or -1 if a task failed before.
   */
  datatype Pc =
    | Idle                                                  // no request taken
    | Header(start: nat, done: nat)                         // `done` bytes are read into the header buffer
    | Body(start: nat, got: nat)                            // `got` bytes of the body lie in the scratch buffer
    | Running(start: nat, k: nat, at: nat, mem: seq<byte>)  // k operations of its chain are done
    | Dead(last: int)                                       // the task failed: the slot is not used again

  /** A finished request: log lengths when it was taken and when it was answered, and its own entry. */
  datatype Answer = Answer(slot: nat, request: seq<byte>, start: nat, at: nat, end: nat, reply: seq<byte>)

  datatype State = State(w: World, pcs: seq<Pc>, answers: seq<Answer>)

  /** What does not change: the number of slots, the registered files, the size handle_read cuts at. */
  datatype System = System(n: nat, fds: seq<File>, fsize: nat, file0: seq<byte>)

  datatype Step =
    | Ask(i: nat, max: nat, o: Outcome)           // the fuse fd delivers a request into the pipe
    | ReadHeader(i: nat, o: Outcome)              // one read, of any size, into the header buffer
    | CopyBody(i: nat)                            // what came of the body goes to the scratch buffer
    | ReadBody(i: nat, o: Outcome)                // one read, of any size, behind it
    | Start(i: nat)                               // reply header stored, chain submitted
    | Run(i: nat, o: Outcome)                     // the next operation of the chain
    | Finish(i: nat)                              // the coroutine sees the results and ends

  ghost predicate FileRequest(req: seq<byte>) {
    && |req| >= 80 && WellFormed(req) && NodeId(req) == 3
    && (if Opcode(req) == FUSE_READ then |req| == 80 else Opcode(req) == FUSE_WRITE && |req| == 80 + SizeOf(req))
  }

  function OffsetOf(req: seq<byte>): nat requires |req| >= 80 { Get64(req, 48) }

  function SizeOf(req: seq<byte>): nat requires |req| >= 80 { Get32(req, 56) }

  ghost predicate IsRead(req: seq<byte>) requires |req| >= 80 { Opcode(req) == FUSE_READ }

  function Wanted(req: seq<byte>, fsize: nat): nat
    requires |req| >= 80
  {
    ClampedSize(OffsetOf(req), SizeOf(req), fsize)
  }

  ghost function ChainOf(req: seq<byte>, fsize: nat): (c: seq<Sqe>)
    requires |req| >= 80
    ensures |c| == 3
  {
    if IsRead(req) then ReadChain(OffsetOf(req), Wanted(req, fsize)) else WriteChain(OffsetOf(req), SizeOf(req))
  }

  /** The bytes stored in the scratch buffer before the chain is queued. */
  ghost function Head(req: seq<byte>, fsize: nat): (h: seq<byte>)
    requires |req| >= 80
    ensures |h| == if IsRead(req) then 16 else 24
  {
    if IsRead(req) then OutHeader(16 + Wanted(req, fsize), 0, Unique(req)) else WriteReply(Unique(req), SizeOf(req))
  }

  /** Chain and reply header depend on the first 80 bytes of a request alone. */
  lemma MadeOfMemory(mem: seq<byte>, req: seq<byte>, fsize: nat)
    requires |req| >= 80 && mem == req[..80]
    ensures ChainOf(mem, fsize) == ChainOf(req, fsize) && Head(mem, fsize) == Head(req, fsize)
    ensures IsRead(mem) == IsRead(req) && SizeOf(mem) == SizeOf(req) && FileOp(mem) == FileOp(req)
  {
    assert mem[4..8] == req[4..8] && mem[8..16] == req[8..16];
    assert mem[48..56] == req[48..56] && mem[56..60] == req[56..60];
  }

  /** Which operation of the chain works on the backing file. */
  ghost function FileOp(req: seq<byte>): nat requires |req| >= 80 { if IsRead(req) then 1 else 0 }

  // -------------------------------------------------------- a plain byte file

  /** A file operation of the plain file: the reply and the new contents; None if the read does not fit. */
  datatype Served = None | Served(reply: seq<byte>, file: seq<byte>)

  ghost function Atomic(req: seq<byte>, fsize: nat, file: seq<byte>): Served
    requires FileRequest(req)
  {
    if IsRead(req) then
      var m := Wanted(req, fsize);
      if m == 0 then Served(Head(req, fsize), file)
      else if OffsetOf(req) + m <= |file| then
        Served(Head(req, fsize) + file[OffsetOf(req)..OffsetOf(req) + m], file)
      else None
    else Served(Head(req, fsize), Overwrite(file, OffsetOf(req), req[80..]))
  }

  /** The contents after the first k entries of the log. */
  ghost function FileAt(file0: seq<byte>, log: seq<Logged>, k: nat): seq<byte>
    requires k <= |log|
  {
    if k == 0 then file0 else log[k - 1].commit.after
  }

  ghost predicate Follows(file0: seq<byte>, log: seq<Logged>, k: nat)
    requires k < |log|
  {
    log[k].commit.before == FileAt(file0, log, k)
  }

  /** The log is a history of the file: every entry starts from where the one before it ended. */
  ghost predicate History(file0: seq<byte>, log: seq<Logged>, file: seq<byte>) {
    file == FileAt(file0, log, |log|) && forall k: nat :: k < |log| ==> Follows(file0, log, k)
  }

  /** Entry `at` of the log is the atomic operation of req, done by this slot, and reply its answer. */
  ghost predicate AnsweredBy(req: seq<byte>, fsize: nat, log: seq<Logged>, slot: nat, at: nat, reply: seq<byte>) {
    && FileRequest(req) && at < |log| && log[at].slot == slot
    && Atomic(req, fsize, log[at].commit.before) == Served(reply, log[at].commit.after)
  }

  ghost function RepliesOf(answers: seq<Answer>, i: nat): seq<seq<byte>> {
    if answers == [] then []
    else
      var a := answers[|answers| - 1];
      RepliesOf(answers[..|answers| - 1], i) + (if a.slot == i then [a.reply] else [])
  }

  /** What the file operation of req makes of the file if it moves data: all of the payload, or a first part. */
  ghost function Effect(req: seq<byte>, data: seq<byte>, file: seq<byte>): seq<byte> {
    if |req| < 80 || IsRead(req) then file else Overwrite(file, OffsetOf(req), data)
  }

  ghost predicate IsEffect(req: seq<byte>, c: Commit, whole: bool) {
    && FileRequest(req) && c.after == Effect(req, c.data, c.before)
    && (!IsRead(req) ==> c.data <= req[80..] && (whole ==> c.data == req[80..]))
  }

  /** The place of the file operation which a slot has done and which no answer claims yet; -1 if there is none. */
  ghost function HeldAt(pc: Pc): int {
    if pc.Dead? then pc.last
    else if pc.Running? && |pc.mem| == 80 && pc.k > FileOp(pc.mem) then pc.at
    else -1
  }

  ghost predicate Claimed(s: State, k: nat) {
    exists a :: a in s.answers && a.at == k
  }

  /** Entry k was made for an answered request, or for the one its slot is serving or failed to serve. */
  ghost predicate Owned(sys: System, s: State, k: nat)
    requires |s.pcs| == sys.n && k < |s.w.log|
  {
    s.w.log[k].slot < sys.n && (Claimed(s, k) || HeldAt(s.pcs[s.w.log[k].slot]) == k)
  }

  /** The entry a slot holds is its own, no answer's, and the effect of its request. */
  ghost predicate Holder(sys: System, s: State, i: nat)
    requires i < |s.pcs| && i < |s.w.requests|
  {
    var at, req := HeldAt(s.pcs[i]), s.w.requests[i];
    at >= 0 ==>
      at < |s.w.log| && s.w.log[at].slot == i && !Claimed(s, at)
      && IsEffect(req, s.w.log[at].commit, s.pcs[i].Running?)
  }

  /** Every effect on the backing file is that of exactly one request. */
  ghost predicate Accounted(sys: System, s: State) {
    && Sized(s.w, sys.n) && |s.pcs| == sys.n
    && (forall k: nat {:trigger Owned(sys, s, k)} :: k < |s.w.log| ==> Owned(sys, s, k))
    && (forall i: nat {:trigger Holder(sys, s, i)} :: i < sys.n ==> Holder(sys, s, i))
  }

  /**
    The run so far is linearizable: the file is what its history makes it; every entry of the history
    is the effect of one request, answered, under way or failed; every finished request is the atomic
    operation of exactly one entry, placed between its being taken and its being answered; and the
    fuse fd of a slot got exactly these answers, and perhaps one that is not reported yet, of which a
    chain that failed at its reply may have sent a first part.
   */
  ghost predicate Linearizable(sys: System, s: State) {
    && Accounted(sys, s)
    && History(sys.file0, s.w.log, s.w.file)
    && (forall a :: a in s.answers ==>
         a.start <= a.at < a.end <= |s.w.log| && AnsweredBy(a.request, sys.fsize, s.w.log, a.slot, a.at, a.reply))
    && (forall j, k :: 0 <= j < k < |s.answers| ==> s.answers[j].at != s.answers[k].at)
    && (forall i: nat :: i < sys.n ==> MessagesOk(sys, s.w.requests[i], s.w.replies[i], s.pcs[i], s.w.log, i,
                                                  RepliesOf(s.answers, i)))
  }

  /** What slot i has sent: the answers given, and at most one message more, which is or begins its next answer. */
  ghost predicate MessagesOk(sys: System, req: seq<byte>, replies: seq<seq<byte>>, pc: Pc, log: seq<Logged>, i: nat,
                             sent: seq<seq<byte>>) {
    replies == sent ||
    ( && |replies| == |sent| + 1 && replies[..|sent|] == sent && (pc.Dead? || (pc.Running? && pc.k == 3))
      && BeginsAnswer(req, sys.fsize, log, i, HeldAt(pc), replies[|sent|], pc.Running?))
  }

  ghost predicate BeginsAnswer(req: seq<byte>, fsize: nat, log: seq<Logged>, i: nat, at: int, msg: seq<byte>, whole: bool) {
    && FileRequest(req) && 0 <= at < |log| && log[at].slot == i
    && var a := Atomic(req, fsize, log[at].commit.before);
    a.Served? && a.file == log[at].commit.after && msg <= a.reply && (whole ==> msg == a.reply)
  }

  // ------------------------------------------------------------- the machine

  /** The first read takes what there is of header and body, the others go on to the end of the header. */
  function HeaderRead(done: nat): Op
    requires done < 40
  {
    ReadPipe(HeaderBuf, done, if done == 0 then 80 else 40 - done)
  }

  function BodyRead(got: nat): Op
    requires got < 40
  {
    ReadPipe(ScratchBuf, got, 40 - got)
  }

  /** Header and body as the coroutine finds them: the body behind the header or in the scratch buffer. */
  ghost function MemoryOf(v: Slot, pc: Pc): (mem: seq<byte>)
    requires |v.header| == HEADER_BUF_SIZE && |v.scratch| == SCRATCH_BUF_SIZE && (pc.Header? || pc.Body?)
    ensures |mem| == 80
  {
    if pc.Header? then v.header else v.header[..40] + v.scratch[..40]
  }

  /** Where the file operation of a failing chain is: it is there if it moved anything or came to nothing well. */
  ghost function DeadAt(pc: Pc, res: int, next: nat): int
    requires pc.Running? && |pc.mem| == 80
  {
    if pc.k > FileOp(pc.mem) then pc.at else if pc.k == FileOp(pc.mem) && res >= 0 then next else -1
  }

  /** Where an operation of its chain leaves a slot: one that does not move its full length breaks the chain. */
  ghost function RunPc(sys: System, s: State, i: nat, o: Outcome): Pc
    requires i < |s.pcs| && s.pcs[i].Running? && s.pcs[i].k < 3 && |s.pcs[i].mem| == 80
  {
    var pc := s.pcs[i];
    if o.res != ChainOf(pc.mem, sys.fsize)[pc.k].op.len then Dead(DeadAt(pc, o.res, |s.w.log|))
    else Running(pc.start, pc.k + 1, if pc.k == FileOp(pc.mem) then |s.w.log| else pc.at, pc.mem)
  }

  /** Where a read into slot i's memory leaves its coroutine. */
  ghost function HeaderPc(pc: Pc, o: Outcome): Pc
    requires pc.Header?
  {
    if o.res <= 0 then Dead(-1) else Header(pc.start, pc.done + o.res)
  }

  ghost function BodyPc(pc: Pc, o: Outcome): Pc
    requires pc.Body?
  {
    if o.res <= 0 then Dead(-1) else Body(pc.start, pc.got + o.res)
  }

  ghost predicate Enabled(sys: System, s: State, step: Step) {
    && Sized(s.w, sys.n) && |s.pcs| == sys.n && Registered(sys.fds, sys.n) && step.i < sys.n
    && var pc := s.pcs[step.i];
    match step
    case Ask(i, max, o) =>
      pc.Idle? && Submits(s.w, sys.fds, sys.n, i, FuseToPipe(max), o) && (o.res >= 0 ==> FileRequest(o.request))
    case ReadHeader(i, o) =>
      pc.Header? && pc.done < 40 && Submits(s.w, sys.fds, sys.n, i, HeaderRead(pc.done), o)
    case CopyBody(i) => pc.Header? && 40 <= pc.done < 80
    case ReadBody(i, o) =>
      pc.Body? && pc.got < 40 && Submits(s.w, sys.fds, sys.n, i, BodyRead(pc.got), o)
    case Start(i) => (pc.Header? && pc.done == 80) || (pc.Body? && pc.got == 40)
    case Run(i, o) =>
      && pc.Running? && pc.k < 3 && |pc.mem| == 80
      && Submits(s.w, sys.fds, sys.n, i, ChainOf(pc.mem, sys.fsize)[pc.k].op, o)
    case Finish(i) => pc.Running? && pc.k == 3 && s.w.replies[i] != []
  }

  ghost function Next(sys: System, s: State, step: Step): State
    requires Enabled(sys, s, step)
  {
    var i := step.i;
    var pc, v := s.pcs[i], View(s.w, sys.n, i);
    match step
    case Ask(_, max, o) =>
      Performed(sys, s, i, FuseToPipe(max), o, if o.res < 0 then Dead(-1) else Header(|s.w.log|, 0))
    case ReadHeader(_, o) =>
      Performed(sys, s, i, HeaderRead(pc.done), o, HeaderPc(pc, o))
    case CopyBody(_) => Stored(sys, s, i, 0, v.header[40..pc.done], Body(pc.start, pc.done - 40))
    case ReadBody(_, o) =>
      Performed(sys, s, i, BodyRead(pc.got), o, BodyPc(pc, o))
    case Start(_) =>
      var mem := MemoryOf(v, pc);
      Stored(sys, s, i, 0, Head(mem, sys.fsize), Running(pc.start, 0, 0, mem))
    case Run(_, o) =>
      var op := ChainOf(pc.mem, sys.fsize)[pc.k].op;
      Performed(sys, s, i, op, o, RunPc(sys, s, i, o))
    case Finish(_) =>
      var mine := s.w.replies[i];
      s.(pcs := s.pcs[i := Idle],
         answers := s.answers + [Answer(i, v.request, pc.start, pc.at, |s.w.log|, mine[|mine| - 1])])
  }

  ghost function Performed(sys: System, s: State, i: nat, op: Op, o: Outcome, pc: Pc): State
    requires Submits(s.w, sys.fds, sys.n, i, op, o) && |s.pcs| == sys.n
  {
    ActsOnOwnSlot(s.w, sys.fds, sys.n, i, op, o);
    State(Act(s.w, sys.fds, Prepare(i, op), o), s.pcs[i := pc], s.answers)
  }

  /** The coroutine of slot i stores b at offset at of its scratch buffer. */
  ghost function Stored(sys: System, s: State, i: nat, at: nat, b: seq<byte>, pc: Pc): State
    requires Sized(s.w, sys.n) && |s.pcs| == sys.n && i < sys.n && at + |b| <= SCRATCH_BUF_SIZE
  {
    SlotsInBounds(sys.n, i);
    State(s.w.(scratch := Patch(s.w.scratch, SCRATCH_BUF_SIZE * i + at, b)), s.pcs[i := pc], s.answers)
  }

  lemma SlotsInBounds(n: nat, i: nat)
    requires i < n
    ensures SCRATCH_BUF_SIZE * i + SCRATCH_BUF_SIZE <= SCRATCH_BUF_SIZE * n
  {
  }

  /** Runs of any length. */
  ghost predicate Reaches(sys: System, s: State, steps: seq<Step>, t: State)
    decreases |steps|
  {
    if steps == [] then s == t
    else Enabled(sys, s, steps[0]) && Reaches(sys, Next(sys, s, steps[0]), steps[1..], t)
  }

  ghost predicate Initial(sys: System, s: State) {
    && Sized(s.w, sys.n) && Registered(sys.fds, sys.n)
    && s.w.file == sys.file0 && s.w.log == [] && s.answers == []
    && |s.pcs| == sys.n
    && forall i :: 0 <= i < sys.n ==> s.pcs[i] == Idle && s.w.pipes[i] == [] && s.w.replies[i] == []
  }

  // ----------------------------------------------------------- the invariant

  /** What the pipe and the last reply of a slot hold when k operations of its chain are done. */
  ghost predicate Progress(sys: System, v: Slot, log: seq<Logged>, i: nat, k: nat, at: nat)
    requires FileRequest(v.request)
  {
    var req, head := v.request, Head(v.request, sys.fsize);
    if IsRead(req) then
      (k == 0 && v.pipe == [])
      || (k == 1 && v.pipe == head)
      || (k == 2 && |v.pipe| == 16 + Wanted(req, sys.fsize) < TWO32 && AnsweredBy(req, sys.fsize, log, i, at, v.pipe))
      || (k == 3 && v.pipe == [] && v.replies != [] && AnsweredBy(req, sys.fsize, log, i, at, v.replies[|v.replies| - 1]))
    else
      (k == 0 && v.pipe == req[80..])
      || (k == 1 && v.pipe == [] && AnsweredBy(req, sys.fsize, log, i, at, head))
      || (k == 2 && v.pipe == head && AnsweredBy(req, sys.fsize, log, i, at, head))
      || (k == 3 && v.pipe == [] && v.replies != [] && v.replies[|v.replies| - 1] == head
            && AnsweredBy(req, sys.fsize, log, i, at, head))
  }

  ghost predicate SlotOk(sys: System, v: Slot, pc: Pc, log: seq<Logged>, i: nat) {
    |v.scratch| == SCRATCH_BUF_SIZE && |v.header| == HEADER_BUF_SIZE &&
    match pc
    case Idle => v.pipe == []
    case Header(start, done) =>
      && FileRequest(v.request) && start <= |log| && done <= 80
      && v.header[..done] == v.request[..done] && v.pipe == v.request[done..]
    case Body(start, got) =>
      && FileRequest(v.request) && start <= |log| && got <= 40
      && v.header[..40] == v.request[..40] && v.scratch[..got] == v.request[40..40 + got]
      && v.pipe == v.request[40 + got..]
    case Running(start, k, at, mem) =>
      && FileRequest(v.request) && start <= |log| && mem == v.request[..80]
      && v.scratch[..|Head(v.request, sys.fsize)|] == Head(v.request, sys.fsize)
      && Progress(sys, v, log, i, k, at)
      && (k > FileOp(v.request) ==> start <= at)
    case Dead(_) => true
  }

  /** The file operation of slot i is in the log, and no answer was given for it yet. */
  ghost predicate Unclaimed(s: State, i: nat)
    requires i < |s.pcs| && i < |s.w.requests|
  {
    s.pcs[i].Running? && |s.w.requests[i]| >= 80 && s.pcs[i].k > FileOp(s.w.requests[i]) ==>
      forall a :: a in s.answers ==> a.at != s.pcs[i].at
  }

  ghost predicate RepliesOk(sent: seq<seq<byte>>, pc: Pc, replies: seq<seq<byte>>) {
    if pc.Dead? then replies == sent || (|replies| == |sent| + 1 && replies[..|sent|] == sent)
    else if pc.Running? && pc.k == 3 then |replies| == |sent| + 1 && replies[..|sent|] == sent
    else replies == sent
  }

  /** A failed chain that sent something sent a first part of its answer. */
  ghost predicate LastWords(sys: System, v: Slot, pc: Pc, log: seq<Logged>, i: nat, sent: nat) {
    pc.Dead? && |v.replies| > sent ==> BeginsAnswer(v.request, sys.fsize, log, i, pc.last, v.replies[sent], false)
  }

  ghost predicate AnswersOk(sys: System, s: State) {
    && (forall a :: a in s.answers ==>
         a.start <= a.at < a.end <= |s.w.log| && AnsweredBy(a.request, sys.fsize, s.w.log, a.slot, a.at, a.reply))
    && (forall j, k :: 0 <= j < k < |s.answers| ==> s.answers[j].at != s.answers[k].at)
  }

  ghost predicate Inv(sys: System, s: State) {
    && Sized(s.w, sys.n) && Registered(sys.fds, sys.n) && |s.pcs| == sys.n
    && History(sys.file0, s.w.log, s.w.file)
    && AnswersOk(sys, s)
    && forall i :: 0 <= i < sys.n ==> SlotInv(sys, s, i)
  }

  ghost predicate SlotInv(sys: System, s: State, i: nat)
    requires Sized(s.w, sys.n) && |s.pcs| == sys.n && i < sys.n
  {
    && SlotOk(sys, View(s.w, sys.n, i), s.pcs[i], s.w.log, i)
    && Unclaimed(s, i)
    && RepliesOk(RepliesOf(s.answers, i), s.pcs[i], s.w.replies[i])
    && LastWords(sys, View(s.w, sys.n, i), s.pcs[i], s.w.log, i, |RepliesOf(s.answers, i)|)
  }

  /** Old entries stay where they are. */
  lemma StillAnswered(req: seq<byte>, fsize: nat, log: seq<Logged>, more: seq<Logged>, i: nat, at: nat, reply: seq<byte>)
    requires AnsweredBy(req, fsize, log, i, at, reply)
    ensures AnsweredBy(req, fsize, log + more, i, at, reply)
  {
  }

  lemma StillBegins(sys: System, v: Slot, pc: Pc, log: seq<Logged>, more: seq<Logged>, i: nat, sent: nat)
    requires LastWords(sys, v, pc, log, i, sent)
    ensures LastWords(sys, v, pc, log + more, i, sent)
  {
  }

  lemma StillOk(sys: System, v: Slot, pc: Pc, log: seq<Logged>, more: seq<Logged>, i: nat)
    requires SlotOk(sys, v, pc, log, i)
    ensures SlotOk(sys, v, pc, log + more, i)
  {
    if pc.Running? {
      var head := Head(v.request, sys.fsize);
      if AnsweredBy(v.request, sys.fsize, log, i, pc.at, head) {
        StillAnswered(v.request, sys.fsize, log, more, i, pc.at, head);
      }
      if AnsweredBy(v.request, sys.fsize, log, i, pc.at, v.pipe) {
        StillAnswered(v.request, sys.fsize, log, more, i, pc.at, v.pipe);
      }
      if v.replies != [] && AnsweredBy(v.request, sys.fsize, log, i, pc.at, v.replies[|v.replies| - 1]) {
        StillAnswered(v.request, sys.fsize, log, more, i, pc.at, v.replies[|v.replies| - 1]);
      }
    }
  }

  /** One more entry, starting from the present contents, continues the history. */
  lemma HistoryGrows(file0: seq<byte>, log: seq<Logged>, file: seq<byte>, e: Logged)
    requires History(file0, log, file) && e.commit.before == file
    ensures History(file0, log + [e], e.commit.after)
  {
    var log2 := log + [e];
    forall k: nat | k < |log2|
      ensures Follows(file0, log2, k)
    {
      assert k > 0 ==> log2[k - 1] == log[k - 1];
      assert k < |log| ==> log2[k] == log[k] && Follows(file0, log, k);
    }
  }

  /** The effect of the k-th operation of a chain on its slot. */
  ghost predicate RunsOn(sys: System, v: Slot, log: seq<Logged>, i: nat, start: nat, k: nat, at: nat, v2: Slot)
  {
    && FileRequest(v.request)
    && (v2.commits != [] <==> k == FileOp(v.request))
    && SlotOk(sys, v2.(commits := []),
              Running(start, k + 1, if k == FileOp(v.request) then |log| else at, v.request[..80]),
              log + (if v2.commits == [] then [] else [Logged(i, v2.commits[0])]), i)
    && (if k == 2 then v2.replies == v.replies + [v.pipe] else v2.replies == v.replies)
  }

  /** Operation k is about to run on slot i, and moves its full length. */
  ghost predicate AboutToRun(sys: System, v: Slot, log: seq<Logged>, file: seq<byte>, i: nat, start: nat, k: nat,
                             at: nat, o: Outcome) {
    && |v.scratch| == SCRATCH_BUF_SIZE && v.commits == [] && k < 3
    && FileRequest(v.request) && SlotOk(sys, v, Running(start, k, at, v.request[..80]), log, i)
    && var op := ChainOf(v.request, sys.fsize)[k].op;
       InBounds(v, op) && Possible(v, op, o) && o.res == op.len && o.file == file
  }

  lemma ReadRun0(sys: System, v: Slot, log: seq<Logged>, file: seq<byte>, i: nat, start: nat, at: nat, o: Outcome)
    requires AboutToRun(sys, v, log, file, i, start, 0, at, o) && IsRead(v.request)
    ensures RunsOn(sys, v, log, i, start, 0, at, Exec(v, WritePipe(ScratchBuf, 16), o))
  {
    var v2 := Exec(v, WritePipe(ScratchBuf, 16), o);
    assert v2.pipe == Head(v.request, sys.fsize);
    assert log + [] == log;
  }

  lemma ReadRun1Before(sys: System, v: Slot, log: seq<Logged>, file: seq<byte>, i: nat, start: nat, at: nat, o: Outcome)
    requires AboutToRun(sys, v, log, file, i, start, 1, at, o) && IsRead(v.request)
    ensures v.pipe == Head(v.request, sys.fsize) && v.commits == [] && o.file == file
    ensures var off, m := OffsetOf(v.request), Wanted(v.request, sys.fsize);
      o.res == m && 16 + m < TWO32 && (m > 0 ==> off + m <= |file|) && Possible(v, FileToPipe(off, m), o)
  {
  }

  /** The splice of file bytes behind what is in the pipe. */
  lemma FileBytes(v: Slot, off: nat, m: nat, o: Outcome)
    requires v.commits == [] && o.res == m && (m > 0 ==> off + m <= |o.file|) && Possible(v, FileToPipe(off, m), o)
    ensures var data := if m > 0 then o.file[off..off + m] else [];
      Exec(v, FileToPipe(off, m), o)
      == v.(pipe := v.pipe + data, commits := [Commit(false, off, data, o.file, o.file)])
  {
  }

  lemma ReadRun1(sys: System, v: Slot, log: seq<Logged>, file: seq<byte>, i: nat, start: nat, at: nat, o: Outcome)
    requires AboutToRun(sys, v, log, file, i, start, 1, at, o) && IsRead(v.request)
    ensures RunsOn(sys, v, log, i, start, 1, at, Exec(v, FileToPipe(OffsetOf(v.request), Wanted(v.request, sys.fsize)), o))
  {
    var req := v.request;
    var off, m := OffsetOf(req), Wanted(req, sys.fsize);
    var data := if m > 0 then file[off..off + m] else [];
    ReadRun1Before(sys, v, log, file, i, start, at, o);
    FileBytes(v, off, m, o);
    var e := Logged(i, Commit(false, off, data, file, file));
    assert (log + [e])[|log|] == e;
    AtomicRead(req, sys.fsize, file, data);
    assert AnsweredBy(req, sys.fsize, log + [e], i, |log|, Head(req, sys.fsize) + data);
  }

  /** The splice of all that is queued. */
  lemma SendsAll(v: Slot, o: Outcome)
    requires v.pipe != [] && o.res == |v.pipe| && Possible(v, PipeToFuse(|v.pipe|), o)
    ensures Exec(v, PipeToFuse(|v.pipe|), o) == v.(pipe := [], replies := v.replies + [v.pipe])
  {
    assert v.pipe[..|v.pipe|] == v.pipe && v.pipe[|v.pipe|..] == [];
  }

  lemma ReadRun2(sys: System, v: Slot, log: seq<Logged>, file: seq<byte>, i: nat, start: nat, at: nat, o: Outcome)
    requires AboutToRun(sys, v, log, file, i, start, 2, at, o) && IsRead(v.request)
    ensures RunsOn(sys, v, log, i, start, 2, at, Exec(v, PipeToFuse(Wrap32(16 + Wanted(v.request, sys.fsize))), o))
  {
    ReplyWaits(sys, v, log, i, at);
    SendsAll(v, o);
    assert log + [] == log;
  }

  lemma ReplyWaits(sys: System, v: Slot, log: seq<Logged>, i: nat, at: nat)
    requires FileRequest(v.request) && IsRead(v.request) && Progress(sys, v, log, i, 2, at)
    ensures |v.pipe| == 16 + Wanted(v.request, sys.fsize) == Wrap32(16 + Wanted(v.request, sys.fsize))
  {
  }

  lemma ReadRuns(sys: System, v: Slot, log: seq<Logged>, file: seq<byte>, i: nat, start: nat, k: nat, at: nat, o: Outcome)
    requires AboutToRun(sys, v, log, file, i, start, k, at, o) && IsRead(v.request)
    ensures RunsOn(sys, v, log, i, start, k, at, Exec(v, ChainOf(v.request, sys.fsize)[k].op, o))
  {
    if k == 0 {
      ReadRun0(sys, v, log, file, i, start, at, o);
    } else if k == 1 {
      ReadRun1(sys, v, log, file, i, start, at, o);
    } else {
      ReadRun2(sys, v, log, file, i, start, at, o);
    }
  }

  lemma AtomicWrite(req: seq<byte>, fsize: nat, file: seq<byte>)
    requires FileRequest(req) && !IsRead(req)
    ensures Atomic(req, fsize, file) == Served(Head(req, fsize), Overwrite(file, OffsetOf(req), req[80..]))
  {
  }

  lemma AtomicRead(req: seq<byte>, fsize: nat, file: seq<byte>, data: seq<byte>)
    requires FileRequest(req) && IsRead(req)
    requires var off, m := OffsetOf(req), Wanted(req, fsize);
      if m > 0 then off + m <= |file| && data == file[off..off + m] else data == []
    ensures Atomic(req, fsize, file) == Served(Head(req, fsize) + data, file)
  {
    assert Head(req, fsize) + [] == Head(req, fsize);
  }

  lemma WriteRun0(sys: System, v: Slot, log: seq<Logged>, file: seq<byte>, i: nat, start: nat, at: nat, o: Outcome)
    requires AboutToRun(sys, v, log, file, i, start, 0, at, o) && !IsRead(v.request)
    ensures RunsOn(sys, v, log, i, start, 0, at, Exec(v, PipeToFile(OffsetOf(v.request), SizeOf(v.request)), o))
  {
    var req := v.request;
    var off, data := OffsetOf(req), v.pipe;
    var v2 := Exec(v, PipeToFile(off, SizeOf(req)), o);
    assert data == req[80..] && o.res == |data|;
    assert data[..|data|] == data && data[|data|..] == [];
    assert v2.pipe == [] && v2.commits == [Commit(true, off, data, file, Overwrite(file, off, data))];
    var e := Logged(i, v2.commits[0]);
    assert (log + [e])[|log|] == e;
    AtomicWrite(req, sys.fsize, file);
  }

  lemma WriteRun1(sys: System, v: Slot, log: seq<Logged>, file: seq<byte>, i: nat, start: nat, at: nat, o: Outcome)
    requires AboutToRun(sys, v, log, file, i, start, 1, at, o) && !IsRead(v.request)
    ensures RunsOn(sys, v, log, i, start, 1, at, Exec(v, WritePipe(ScratchBuf, 24), o))
  {
    var v2 := Exec(v, WritePipe(ScratchBuf, 24), o);
    assert v2.pipe == Head(v.request, sys.fsize);
    assert log + [] == log;
  }

  lemma WriteRun2(sys: System, v: Slot, log: seq<Logged>, file: seq<byte>, i: nat, start: nat, at: nat, o: Outcome)
    requires AboutToRun(sys, v, log, file, i, start, 2, at, o) && !IsRead(v.request)
    ensures RunsOn(sys, v, log, i, start, 2, at, Exec(v, PipeToFuse(24), o))
  {
    assert |v.pipe| == 24;
    SendsAll(v, o);
    assert log + [] == log;
  }

  lemma WriteRuns(sys: System, v: Slot, log: seq<Logged>, file: seq<byte>, i: nat, start: nat, k: nat, at: nat, o: Outcome)
    requires AboutToRun(sys, v, log, file, i, start, k, at, o) && !IsRead(v.request)
    ensures RunsOn(sys, v, log, i, start, k, at, Exec(v, ChainOf(v.request, sys.fsize)[k].op, o))
  {
    if k == 0 {
      WriteRun0(sys, v, log, file, i, start, at, o);
    } else if k == 1 {
      WriteRun1(sys, v, log, file, i, start, at, o);
    } else {
      WriteRun2(sys, v, log, file, i, start, at, o);
    }
  }

  // ------------------------------------------------------- every step keeps it

  ghost function LogAfter(log: seq<Logged>, i: nat, v2: Slot): seq<Logged> {
    log + (if v2.commits == [] then [] else [Logged(i, v2.commits[0])])
  }

  /** What the acting slot has to show for the invariant to survive an operation of it. */
  ghost predicate ActorOk(sys: System, s: State, i: nat, pc: Pc, v2: Slot) {
    && SlotOk(sys, v2.(commits := []), pc, LogAfter(s.w.log, i, v2), i)
    && RepliesOk(RepliesOf(s.answers, i), pc, v2.replies)
    && LastWords(sys, v2, pc, LogAfter(s.w.log, i, v2), i, |RepliesOf(s.answers, i)|)
    && (pc.Running? && |v2.request| >= 80 && pc.k > FileOp(v2.request) ==>
          forall a :: a in s.answers ==> a.at != pc.at)
  }

  lemma PerformedKeeps(sys: System, s: State, i: nat, op: Op, o: Outcome, pc: Pc)
    requires Inv(sys, s) && Submits(s.w, sys.fds, sys.n, i, op, o)
    requires ActorOk(sys, s, i, pc, Exec(View(s.w, sys.n, i), op, o))
    ensures Inv(sys, Performed(sys, s, i, op, o, pc))
  {
    ActsOnOwnSlot(s.w, sys.fds, sys.n, i, op, o);
    var v2 := Exec(View(s.w, sys.n, i), op, o);
    var t := Performed(sys, s, i, op, o, pc);
    var more := if v2.commits == [] then [] else [Logged(i, v2.commits[0])];
    assert t.w.log == s.w.log + more by { assert s.w.log + [] == s.w.log; }
    HistoryAfter(sys, s, i, v2, t.w);
    AnswersStay(sys, s, t, more);
    forall j | 0 <= j < sys.n
      ensures SlotInv(sys, t, j)
    {
      if j == i {
        ActorStays(sys, s, t, i, pc, v2);
      } else {
        OthersStay(sys, s, t, more, j);
      }
    }
  }

  lemma ActorStays(sys: System, s: State, t: State, i: nat, pc: Pc, v2: Slot)
    requires i < sys.n && Sized(t.w, sys.n) && |t.pcs| == sys.n && t.pcs[i] == pc && t.answers == s.answers
    requires ActorOk(sys, s, i, pc, v2) && View(t.w, sys.n, i) == v2.(commits := [])
    requires t.w.log == LogAfter(s.w.log, i, v2)
    ensures SlotInv(sys, t, i)
  {
    assert t.w.requests[i] == View(t.w, sys.n, i).request && t.w.replies[i] == View(t.w, sys.n, i).replies;
  }

  lemma HistoryAfter(sys: System, s: State, i: nat, v2: Slot, w2: World)
    requires Inv(sys, s) && i < sys.n && OnlySlot(s.w, w2, sys.n, i, v2)
    ensures History(sys.file0, w2.log, w2.file)
  {
    if v2.commits != [] {
      HistoryGrows(sys.file0, s.w.log, s.w.file, Logged(i, v2.commits[0]));
    }
  }

  lemma AnswersStay(sys: System, s: State, t: State, more: seq<Logged>)
    requires AnswersOk(sys, s) && t.w.log == s.w.log + more && t.answers == s.answers
    ensures AnswersOk(sys, t)
  {
    forall a | a in s.answers
      ensures a.start <= a.at < a.end <= |t.w.log| && AnsweredBy(a.request, sys.fsize, t.w.log, a.slot, a.at, a.reply)
    {
      StillAnswered(a.request, sys.fsize, s.w.log, more, a.slot, a.at, a.reply);
    }
  }

  lemma OthersStay(sys: System, s: State, t: State, more: seq<Logged>, j: nat)
    requires Inv(sys, s) && j < sys.n && Sized(t.w, sys.n) && |t.pcs| == sys.n
    requires t.w.log == s.w.log + more && t.answers == s.answers && t.pcs[j] == s.pcs[j]
    requires View(t.w, sys.n, j) == View(s.w, sys.n, j)
    ensures SlotInv(sys, t, j)
  {
    assert SlotInv(sys, s, j);
    StillOk(sys, View(s.w, sys.n, j), s.pcs[j], s.w.log, more, j);
    StillBegins(sys, View(s.w, sys.n, j), s.pcs[j], s.w.log, more, j, |RepliesOf(s.answers, j)|);
    assert t.w.requests[j] == View(t.w, sys.n, j).request == s.w.requests[j];
    assert t.w.replies[j] == View(t.w, sys.n, j).replies == s.w.replies[j];
  }

  /** A store into slot i's own scratch buffer, and a new place in its coroutine. */
  lemma StoreKeeps(sys: System, s: State, i: nat, at: nat, b: seq<byte>, pc: Pc)
    requires Inv(sys, s) && i < sys.n && at + |b| <= SCRATCH_BUF_SIZE
    requires var v := View(s.w, sys.n, i);
      ActorOk(sys, s, i, pc, v.(scratch := Patch(v.scratch, at, b)))
    ensures Inv(sys, Stored(sys, s, i, at, b, pc))
  {
    PokesOwnScratch(s.w, sys.n, i, at, b);
    var t := Stored(sys, s, i, at, b, pc);
    assert s.w.log + [] == s.w.log;
    AnswersStay(sys, s, t, []);
    forall j | 0 <= j < sys.n
      ensures SlotInv(sys, t, j)
    {
      if j != i {
        OthersStay(sys, s, t, [], j);
      }
    }
  }

  /** What the invariant says of a slot whose chain is under way. */
  lemma RunningSlot(sys: System, s: State, i: nat)
    requires Inv(sys, s) && i < sys.n && s.pcs[i].Running?
    ensures var v, pc := View(s.w, sys.n, i), s.pcs[i];
      && FileRequest(v.request) && v.request == s.w.requests[i] && v.replies == s.w.replies[i]
      && pc.mem == v.request[..80]
      && ChainOf(pc.mem, sys.fsize) == ChainOf(v.request, sys.fsize)
      && IsRead(pc.mem) == IsRead(v.request) && SizeOf(pc.mem) == SizeOf(v.request)
      && FileOp(pc.mem) == FileOp(v.request)
  {
    assert SlotInv(sys, s, i);
    MadeOfMemory(s.pcs[i].mem, View(s.w, sys.n, i).request, sys.fsize);
  }

  /** An operation of the chain that moved its full length. */
  lemma RunActorOk(sys: System, s: State, i: nat, o: Outcome)
    requires Inv(sys, s) && Enabled(sys, s, Run(i, o))
    requires o.res == ChainOf(s.pcs[i].mem, sys.fsize)[s.pcs[i].k].op.len
    ensures
      var pc := s.pcs[i];
      ActorOk(sys, s, i, Running(pc.start, pc.k + 1, if pc.k == FileOp(pc.mem) then |s.w.log| else pc.at, pc.mem),
              Exec(View(s.w, sys.n, i), ChainOf(pc.mem, sys.fsize)[pc.k].op, o))
  {
    var v, pc := View(s.w, sys.n, i), s.pcs[i];
    RunningSlot(sys, s, i);
    var v2 := Exec(v, ChainOf(v.request, sys.fsize)[pc.k].op, o);
    assert RunsOn(sys, v, s.w.log, i, pc.start, pc.k, pc.at, v2) by {
      assert SlotInv(sys, s, i);
      if IsRead(v.request) {
        ReadRuns(sys, v, s.w.log, s.w.file, i, pc.start, pc.k, pc.at, o);
      } else {
        WriteRuns(sys, v, s.w.log, s.w.file, i, pc.start, pc.k, pc.at, o);
      }
    }
    assert v2.request == v.request by { ChainKeepsRequest(v, sys.fsize, pc.k, o); }
    RanActorOk(sys, s, i, v2);
  }

  lemma ChainKeepsRequest(v: Slot, fsize: nat, k: nat, o: Outcome)
    requires |v.request| >= 80 && k < 3
    requires var op := ChainOf(v.request, fsize)[k].op; InBounds(v, op) && Possible(v, op, o)
    ensures Exec(v, ChainOf(v.request, fsize)[k].op, o).request == v.request
  {
  }

  lemma RanActorOk(sys: System, s: State, i: nat, v2: Slot)
    requires Inv(sys, s) && i < sys.n && s.pcs[i].Running? && FileRequest(s.w.requests[i])
    requires v2.request == s.w.requests[i] && s.pcs[i].mem == v2.request[..80] && FileOp(s.pcs[i].mem) == FileOp(v2.request)
    requires RunsOn(sys, View(s.w, sys.n, i), s.w.log, i, s.pcs[i].start, s.pcs[i].k, s.pcs[i].at, v2)
    ensures
      var pc := s.pcs[i];
      ActorOk(sys, s, i, Running(pc.start, pc.k + 1, if pc.k == FileOp(pc.mem) then |s.w.log| else pc.at, pc.mem), v2)
  {
    assert SlotInv(sys, s, i);
    var sent, v := RepliesOf(s.answers, i), View(s.w, sys.n, i);
    assert (sent + [v.pipe])[..|sent|] == sent;
  }

  lemma RunActs(sys: System, s: State, i: nat, o: Outcome)
    requires Inv(sys, s) && Enabled(sys, s, Run(i, o))
    ensures var op := ChainOf(s.pcs[i].mem, sys.fsize)[s.pcs[i].k].op;
      ActorOk(sys, s, i, RunPc(sys, s, i, o), Exec(View(s.w, sys.n, i), op, o))
  {
    if o.res != ChainOf(s.pcs[i].mem, sys.fsize)[s.pcs[i].k].op.len {
      BrokenActorOk(sys, s, i, o);
    } else {
      RunActorOk(sys, s, i, o);
    }
  }

  lemma RunKeeps(sys: System, s: State, i: nat, o: Outcome)
    requires Inv(sys, s) && Enabled(sys, s, Run(i, o))
    ensures Inv(sys, Next(sys, s, Run(i, o)))
  {
    var op, pc2 := ChainOf(s.pcs[i].mem, sys.fsize)[s.pcs[i].k].op, RunPc(sys, s, i, o);
    assert Next(sys, s, Run(i, o)) == Performed(sys, s, i, op, o, pc2);
    RunActs(sys, s, i, o);
    PerformedKeeps(sys, s, i, op, o, pc2);
  }

  /** The task of slot i fails before its chain. */
  lemma DeadActorOk(sys: System, s: State, i: nat, op: Op, o: Outcome)
    requires Inv(sys, s) && Submits(s.w, sys.fds, sys.n, i, op, o) && (op.FuseToPipe? || op.ReadPipe?)
    requires s.pcs[i].Idle? || s.pcs[i].Header? || s.pcs[i].Body?
    ensures ActorOk(sys, s, i, Dead(-1), Exec(View(s.w, sys.n, i), op, o))
  {
    assert SlotInv(sys, s, i);
    assert Exec(View(s.w, sys.n, i), op, o).replies == s.w.replies[i];
  }

  /** Its chain breaks. */
  lemma BrokenActorOk(sys: System, s: State, i: nat, o: Outcome)
    requires Inv(sys, s) && Enabled(sys, s, Run(i, o))
    requires o.res != ChainOf(s.pcs[i].mem, sys.fsize)[s.pcs[i].k].op.len
    ensures var op := ChainOf(s.pcs[i].mem, sys.fsize)[s.pcs[i].k].op;
      ActorOk(sys, s, i, RunPc(sys, s, i, o), Exec(View(s.w, sys.n, i), op, o))
  {
    RunningSlot(sys, s, i);
    var v, pc := View(s.w, sys.n, i), s.pcs[i];
    assert Progress(sys, v, s.w.log, i, pc.k, pc.at) && v.replies == RepliesOf(s.answers, i) by {
      assert SlotInv(sys, s, i);
    }
    if pc.k == 2 {
      BrokenReply(sys, v, s.w.log, i, pc.at, o);
      SentOneMore(sys, s, i, RunPc(sys, s, i, o), Exec(v, ChainOf(v.request, sys.fsize)[2].op, o));
    } else {
      BrokenBefore(v, sys.fsize, pc.k, o);
    }
  }

  lemma SentOneMore(sys: System, s: State, i: nat, pc: Pc, v2: Slot)
    requires pc.Dead? && v2.commits == [] && |v2.scratch| == SCRATCH_BUF_SIZE && |v2.header| == HEADER_BUF_SIZE
    requires var sent := RepliesOf(s.answers, i);
      v2.replies == sent || exists m :: v2.replies == sent + [m]
                                        && BeginsAnswer(v2.request, sys.fsize, s.w.log, i, pc.last, m, false)
    ensures ActorOk(sys, s, i, pc, v2)
  {
    assert LogAfter(s.w.log, i, v2) == s.w.log;
    assert v2.(commits := []) == v2;
  }

  /** The reply splice fails or moves less than all: what it sent begins the answer. */
  lemma BrokenReply(sys: System, v: Slot, log: seq<Logged>, i: nat, at: nat, o: Outcome)
    requires FileRequest(v.request) && Progress(sys, v, log, i, 2, at)
    requires var op := ChainOf(v.request, sys.fsize)[2].op; InBounds(v, op) && Possible(v, op, o)
    ensures var v2 := Exec(v, ChainOf(v.request, sys.fsize)[2].op, o);
      && v2.commits == v.commits && v2.request == v.request
      && (v2.replies == v.replies
          || exists m :: v2.replies == v.replies + [m] && BeginsAnswer(v.request, sys.fsize, log, i, at, m, false))
  {
    if o.res > 0 {
      assert AnsweredBy(v.request, sys.fsize, log, i, at, v.pipe);
      assert v.pipe[..o.res] <= v.pipe && v.pipe[..o.res] != [];
      assert BeginsAnswer(v.request, sys.fsize, log, i, at, v.pipe[..o.res], false);
    }
  }

  lemma BrokenBefore(v: Slot, fsize: nat, k: nat, o: Outcome)
    requires |v.request| >= 80 && k < 2
    requires var op := ChainOf(v.request, fsize)[k].op; InBounds(v, op) && Possible(v, op, o)
    ensures Exec(v, ChainOf(v.request, fsize)[k].op, o).replies == v.replies
  {
  }

  /** A step before the chain, which sends nothing and does not touch the file. */
  lemma QuietActorOk(sys: System, s: State, i: nat, pc: Pc, v2: Slot)
    requires Inv(sys, s) && i < sys.n && (s.pcs[i].Idle? || s.pcs[i].Header? || s.pcs[i].Body?)
    requires pc.Header? || pc.Body?
    requires v2.commits == [] && v2.replies == s.w.replies[i] && SlotOk(sys, v2, pc, s.w.log, i)
    ensures ActorOk(sys, s, i, pc, v2)
  {
    assert SlotInv(sys, s, i);
    assert s.w.log + [] == s.w.log;
    assert v2.(commits := []) == v2;
  }

  lemma AskStepOk(sys: System, v: Slot, log: seq<Logged>, i: nat, max: nat, o: Outcome)
    requires SlotOk(sys, v, Idle, log, i) && v.commits == []
    requires Possible(v, FuseToPipe(max), o) && o.res >= 0 && FileRequest(o.request)
    ensures SlotOk(sys, Exec(v, FuseToPipe(max), o), Header(|log|, 0), log, i)
  {
    assert v.pipe + o.request == o.request == o.request[0..];
    assert v.header[..0] == o.request[..0];
  }

  lemma AskKeeps(sys: System, s: State, i: nat, max: nat, o: Outcome)
    requires Inv(sys, s) && Enabled(sys, s, Ask(i, max, o))
    ensures Inv(sys, Next(sys, s, Ask(i, max, o)))
  {
    var op := FuseToPipe(max);
    if o.res < 0 {
      DeadActorOk(sys, s, i, op, o);
      PerformedKeeps(sys, s, i, op, o, Dead(-1));
    } else {
      assert SlotInv(sys, s, i);
      AskStepOk(sys, View(s.w, sys.n, i), s.w.log, i, max, o);
      QuietActorOk(sys, s, i, Header(|s.w.log|, 0), Exec(View(s.w, sys.n, i), op, o));
      PerformedKeeps(sys, s, i, op, o, Header(|s.w.log|, 0));
    }
  }

  /** A read puts the next bytes of the request behind those that are there. */
  lemma ReadsOn(req: seq<byte>, from: nat, b: seq<byte>, got: nat, n: nat)
    requires from + got + n <= |req| && got + n <= |b| && b[..got] == req[from..from + got]
    ensures req[from + got..][n..] == req[from + got + n..]
    ensures Patch(b, got, req[from + got..][..n])[..got + n] == req[from..from + got + n]
  {
    var want, more := req[from..from + (got + n)], req[from + got..][..n];
    forall k | 0 <= k < got
      ensures want[k] == b[k]
    {
      assert b[k] == b[..got][k] == req[from..from + got][k];
    }
    forall k | 0 <= k < n
      ensures want[got + k] == more[k]
    {
      assert more[k] == req[from + got..][k];
    }
    assert b[..got] == want[..got] && more == want[got..got + n];
    PatchGrows(b, got, more, want);
    assert want[..got + n] == want;
  }

  lemma HeaderStepOk(sys: System, v: Slot, log: seq<Logged>, i: nat, start: nat, done: nat, o: Outcome)
    requires SlotOk(sys, v, Header(start, done), log, i) && done < 40 && v.commits == []
    requires InBounds(v, HeaderRead(done)) && Possible(v, HeaderRead(done), o) && o.res > 0
    ensures SlotOk(sys, Exec(v, HeaderRead(done), o), Header(start, done + o.res), log, i)
  {
    assert v.request[0..done] == v.request[..done];
    ReadsOn(v.request, 0, v.header, done, o.res);
    assert v.request[0..done + o.res] == v.request[..done + o.res];
  }

  lemma BodyStepOk(sys: System, v: Slot, log: seq<Logged>, i: nat, start: nat, got: nat, o: Outcome)
    requires SlotOk(sys, v, Body(start, got), log, i) && got < 40 && v.commits == []
    requires var op := BodyRead(got); InBounds(v, op) && Possible(v, op, o) && o.res > 0
    ensures SlotOk(sys, Exec(v, BodyRead(got), o), Body(start, got + o.res), log, i)
  {
    ReadsOn(v.request, 40, v.scratch, got, o.res);
  }

  lemma HeaderActorOk(sys: System, s: State, i: nat, o: Outcome)
    requires Inv(sys, s) && Enabled(sys, s, ReadHeader(i, o)) && o.res > 0
    ensures var pc := s.pcs[i];
      ActorOk(sys, s, i, Header(pc.start, pc.done + o.res), Exec(View(s.w, sys.n, i), HeaderRead(pc.done), o))
  {
    var v, pc := View(s.w, sys.n, i), s.pcs[i];
    assert SlotInv(sys, s, i);
    HeaderStepOk(sys, v, s.w.log, i, pc.start, pc.done, o);
    QuietActorOk(sys, s, i, Header(pc.start, pc.done + o.res), Exec(v, HeaderRead(pc.done), o));
  }

  lemma BodyActorOk(sys: System, s: State, i: nat, o: Outcome)
    requires Inv(sys, s) && Enabled(sys, s, ReadBody(i, o)) && o.res > 0
    ensures var pc := s.pcs[i];
      ActorOk(sys, s, i, Body(pc.start, pc.got + o.res),
              Exec(View(s.w, sys.n, i), BodyRead(pc.got), o))
  {
    var v, pc := View(s.w, sys.n, i), s.pcs[i];
    assert SlotInv(sys, s, i);
    BodyStepOk(sys, v, s.w.log, i, pc.start, pc.got, o);
    QuietActorOk(sys, s, i, Body(pc.start, pc.got + o.res), Exec(v, BodyRead(pc.got), o));
  }

  lemma ReadHeaderKeeps(sys: System, s: State, i: nat, o: Outcome)
    requires Inv(sys, s) && Enabled(sys, s, ReadHeader(i, o))
    ensures Inv(sys, Next(sys, s, ReadHeader(i, o)))
  {
    var pc, op := s.pcs[i], HeaderRead(s.pcs[i].done);
    if o.res <= 0 {
      DeadActorOk(sys, s, i, op, o);
    } else {
      HeaderActorOk(sys, s, i, o);
    }
    PerformedKeeps(sys, s, i, op, o, HeaderPc(pc, o));
  }

  lemma ReadBodyKeeps(sys: System, s: State, i: nat, o: Outcome)
    requires Inv(sys, s) && Enabled(sys, s, ReadBody(i, o))
    ensures Inv(sys, Next(sys, s, ReadBody(i, o)))
  {
    var pc, op := s.pcs[i], BodyRead(s.pcs[i].got);
    if o.res <= 0 {
      DeadActorOk(sys, s, i, op, o);
    } else {
      BodyActorOk(sys, s, i, o);
    }
    PerformedKeeps(sys, s, i, op, o, BodyPc(pc, o));
  }

  lemma CopyStepOk(sys: System, v: Slot, log: seq<Logged>, i: nat, start: nat, done: nat)
    requires SlotOk(sys, v, Header(start, done), log, i) && 40 <= done < 80
    ensures SlotOk(sys, v.(scratch := Patch(v.scratch, 0, v.header[40..done])), Body(start, done - 40), log, i)
  {
    var came := v.header[40..done];
    assert came == v.header[..done][40..] == v.request[..done][40..] == v.request[40..done];
    assert v.header[..40] == v.header[..done][..40] == v.request[..40];
    PatchStart(v.scratch, came);
  }

  lemma CopyBodyKeeps(sys: System, s: State, i: nat)
    requires Inv(sys, s) && Enabled(sys, s, CopyBody(i))
    ensures Inv(sys, Next(sys, s, CopyBody(i)))
  {
    var pc, v := s.pcs[i], View(s.w, sys.n, i);
    var came := v.header[40..pc.done];
    assert ActorOk(sys, s, i, Body(pc.start, pc.done - 40), v.(scratch := Patch(v.scratch, 0, came))) by {
      assert SlotInv(sys, s, i);
      CopyStepOk(sys, v, s.w.log, i, pc.start, pc.done);
      QuietActorOk(sys, s, i, Body(pc.start, pc.done - 40), v.(scratch := Patch(v.scratch, 0, came)));
    }
    StoreKeeps(sys, s, i, 0, came, Body(pc.start, pc.done - 40));
  }

  /**
    read_rbytes is done: header and body in memory are those of the request, wherever the body lies
    and however the reads were cut, and only a payload is left in the pipe.
   */
  lemma MemoryIsRequest(sys: System, s: State, i: nat)
    requires Inv(sys, s) && Enabled(sys, s, Start(i))
    ensures var v := View(s.w, sys.n, i);
      FileRequest(v.request) && MemoryOf(v, s.pcs[i]) == v.request[..80] && v.pipe == v.request[80..]
  {
    assert SlotInv(sys, s, i);
    var v, pc := View(s.w, sys.n, i), s.pcs[i];
    if pc.Body? {
      assert v.request[..40] + v.request[40..80] == v.request[..80];
    }
  }

  lemma StartStepOk(sys: System, v: Slot, log: seq<Logged>, i: nat, start: nat, mem: seq<byte>)
    requires |v.scratch| == SCRATCH_BUF_SIZE && |v.header| == HEADER_BUF_SIZE && FileRequest(v.request)
    requires start <= |log| && mem == v.request[..80] && v.pipe == v.request[80..]
    ensures SlotOk(sys, v.(scratch := Patch(v.scratch, 0, Head(mem, sys.fsize))), Running(start, 0, 0, mem), log, i)
  {
    MadeOfMemory(mem, v.request, sys.fsize);
    PatchStart(v.scratch, Head(v.request, sys.fsize));
    assert |v.request| == 80 ==> v.request[80..] == [];
  }

  lemma StartActorOk(sys: System, s: State, i: nat)
    requires Inv(sys, s) && Enabled(sys, s, Start(i))
    ensures
      var v, pc := View(s.w, sys.n, i), s.pcs[i];
      var mem := MemoryOf(v, pc);
      ActorOk(sys, s, i, Running(pc.start, 0, 0, mem), v.(scratch := Patch(v.scratch, 0, Head(mem, sys.fsize))))
  {
    assert SlotInv(sys, s, i);
    var v, pc := View(s.w, sys.n, i), s.pcs[i];
    assert v.replies == s.w.replies[i] && v.commits == [];
    MemoryIsRequest(sys, s, i);
    StartStepOk(sys, v, s.w.log, i, pc.start, MemoryOf(v, pc));
    assert s.w.log + [] == s.w.log;
  }

  lemma StartKeeps(sys: System, s: State, i: nat)
    requires Inv(sys, s) && Enabled(sys, s, Start(i))
    ensures Inv(sys, Next(sys, s, Start(i)))
  {
    var v, pc := View(s.w, sys.n, i), s.pcs[i];
    var mem := MemoryOf(v, pc);
    StartActorOk(sys, s, i);
    StoreKeeps(sys, s, i, 0, Head(mem, sys.fsize), Running(pc.start, 0, 0, mem));
  }

  /** What a slot whose chain is done has to show for its answer. */
  lemma FinisherReady(sys: System, s: State, i: nat)
    requires Sized(s.w, sys.n) && |s.pcs| == sys.n && i < sys.n && SlotInv(sys, s, i)
    requires s.pcs[i].Running? && s.pcs[i].k == 3
    ensures s.w.replies[i] != []
    ensures
      var pc, mine := s.pcs[i], s.w.replies[i];
      && pc.start <= pc.at < |s.w.log|
      && AnsweredBy(s.w.requests[i], sys.fsize, s.w.log, i, pc.at, mine[|mine| - 1])
      && (forall b :: b in s.answers ==> b.at != pc.at)
      && s.w.pipes[i] == []
      && mine == RepliesOf(s.answers, i) + [mine[|mine| - 1]]
  {
    var v := View(s.w, sys.n, i);
    assert v.request == s.w.requests[i] && v.replies == s.w.replies[i] && v.pipe == s.w.pipes[i];
    DoneProgress(sys, v, s.w.log, i, s.pcs[i].at);
    var mine := s.w.replies[i];
    assert mine == mine[..|mine| - 1] + [mine[|mine| - 1]];
  }

  lemma DoneProgress(sys: System, v: Slot, log: seq<Logged>, i: nat, at: nat)
    requires FileRequest(v.request) && Progress(sys, v, log, i, 3, at)
    ensures v.pipe == [] && v.replies != []
    ensures AnsweredBy(v.request, sys.fsize, log, i, at, v.replies[|v.replies| - 1])
  {
  }

  lemma FinishKeeps(sys: System, s: State, i: nat)
    requires Inv(sys, s) && Enabled(sys, s, Finish(i))
    ensures Inv(sys, Next(sys, s, Finish(i)))
  {
    assert SlotInv(sys, s, i);
    FinisherReady(sys, s, i);
    var pc, t, mine := s.pcs[i], Next(sys, s, Finish(i)), s.w.replies[i];
    var a := Answer(i, s.w.requests[i], pc.start, pc.at, |s.w.log|, mine[|mine| - 1]);
    NewAnswerOk(sys, s, t, a);
    forall j | 0 <= j < sys.n
      ensures SlotInv(sys, t, j)
    {
      assert SlotInv(sys, s, j);
      FinishSlotOk(sys, s, t, a, j);
    }
  }

  lemma FinishSlotOk(sys: System, s: State, t: State, a: Answer, j: nat)
    requires Sized(s.w, sys.n) && |s.pcs| == sys.n && j < sys.n && SlotInv(sys, s, j) && a.slot < sys.n
    requires t.w == s.w && t.pcs == s.pcs[a.slot := Idle] && t.answers == s.answers + [a]
    requires a.at < |s.w.log| && s.w.log[a.at].slot == a.slot
    requires j == a.slot ==> s.w.pipes[j] == [] && s.w.replies[j] == RepliesOf(s.answers, j) + [a.reply]
    ensures SlotInv(sys, t, j)
  {
    assert t.answers[..|t.answers| - 1] == s.answers;
    assert View(t.w, sys.n, j).pipe == t.w.pipes[j];
    if j == a.slot {
      assert RepliesOf(t.answers, j) == RepliesOf(s.answers, j) + [a.reply];
    } else {
      OtherClaims(sys, s, t, a, j);
      assert RepliesOf(t.answers, j) == RepliesOf(s.answers, j) + [] == RepliesOf(s.answers, j);
    }
  }

  lemma NewAnswerOk(sys: System, s: State, t: State, a: Answer)
    requires AnswersOk(sys, s) && t.w == s.w && t.answers == s.answers + [a]
    requires a.start <= a.at < a.end <= |s.w.log|
    requires AnsweredBy(a.request, sys.fsize, s.w.log, a.slot, a.at, a.reply)
    requires forall b :: b in s.answers ==> b.at != a.at
    ensures AnswersOk(sys, t)
  {
    forall b | b in t.answers
      ensures b.start <= b.at < b.end <= |t.w.log| && AnsweredBy(b.request, sys.fsize, t.w.log, b.slot, b.at, b.reply)
    {
      assert b in s.answers || b == a;
    }
    forall j, k | 0 <= j < k < |t.answers|
      ensures t.answers[j].at != t.answers[k].at
    {
      assert t.answers[j] == s.answers[j] && s.answers[j] in s.answers;
    }
  }

  /** The entry an answer claims belongs to the answering slot, so it is no other slot's. */
  lemma OtherClaims(sys: System, s: State, t: State, a: Answer, j: nat)
    requires Sized(s.w, sys.n) && |s.pcs| == sys.n && j < sys.n && SlotInv(sys, s, j) && a.slot != j
    requires t.w == s.w && |t.pcs| == sys.n && t.pcs[j] == s.pcs[j] && t.answers == s.answers + [a]
    requires a.at < |s.w.log| && s.w.log[a.at].slot == a.slot
    ensures Unclaimed(t, j)
  {
    var u := View(s.w, sys.n, j);
    assert u.request == s.w.requests[j];
    if t.pcs[j].Running? && |u.request| >= 80 && t.pcs[j].k > FileOp(u.request) {
      assert s.w.log[s.pcs[j].at].slot == j;
      forall b | b in t.answers
        ensures b.at != t.pcs[j].at
      {
        assert b in s.answers || b == a;
      }
    }
  }

  lemma StepKeeps(sys: System, s: State, step: Step)
    requires Inv(sys, s) && Enabled(sys, s, step)
    ensures Inv(sys, Next(sys, s, step))
  {
    match step {
      case Ask(i, max, o) => AskKeeps(sys, s, i, max, o);
      case ReadHeader(i, o) => ReadHeaderKeeps(sys, s, i, o);
      case CopyBody(i) => CopyBodyKeeps(sys, s, i);
      case ReadBody(i, o) => ReadBodyKeeps(sys, s, i, o);
      case Start(i) => StartKeeps(sys, s, i);
      case Run(i, o) => RunKeeps(sys, s, i, o);
      case Finish(i) => FinishKeeps(sys, s, i);
    }
  }

  // ----------------------------------------- every effect belongs to a request

  /** What the acting slot has to show for the accounts to stay right. */
  ghost predicate ActorAccounted(s: State, i: nat, pc: Pc, v2: Slot)
    requires i < |s.pcs| && i < |s.w.requests|
  {
    && (if v2.commits == [] then
          HeldAt(pc) == HeldAt(s.pcs[i]) && (HeldAt(pc) >= 0 && pc.Running? ==> s.pcs[i].Running?)
        else
          HeldAt(s.pcs[i]) < 0 && HeldAt(pc) == |s.w.log| && IsEffect(v2.request, v2.commits[0], pc.Running?))
    && (HeldAt(pc) >= 0 ==> v2.request == s.w.requests[i])
  }

  lemma PerformedAccounts(sys: System, s: State, i: nat, op: Op, o: Outcome, pc: Pc)
    requires Inv(sys, s) && Accounted(sys, s) && Submits(s.w, sys.fds, sys.n, i, op, o)
    requires ActorAccounted(s, i, pc, Exec(View(s.w, sys.n, i), op, o))
    ensures Accounted(sys, Performed(sys, s, i, op, o, pc))
  {
    ActsOnOwnSlot(s.w, sys.fds, sys.n, i, op, o);
    var v2 := Exec(View(s.w, sys.n, i), op, o);
    var t := Performed(sys, s, i, op, o, pc);
    AccountsStay(sys, s, t, i, v2);
  }

  lemma AccountsStay(sys: System, s: State, t: State, i: nat, v2: Slot)
    requires Inv(sys, s) && Accounted(sys, s) && i < sys.n && OnlySlot(s.w, t.w, sys.n, i, v2)
    requires |t.pcs| == sys.n && t.answers == s.answers && t.pcs == s.pcs[i := t.pcs[i]]
    requires ActorAccounted(s, i, t.pcs[i], v2)
    ensures Accounted(sys, t)
  {
    assert forall k :: 0 <= k < |s.w.log| ==> t.w.log[k] == s.w.log[k];
    forall k: nat | k < |t.w.log|
      ensures Owned(sys, t, k)
    {
      if k < |s.w.log| {
        assert Owned(sys, s, k);
        assert Claimed(s, k) ==> Claimed(t, k);
      }
    }
    forall j: nat | j < sys.n
      ensures Holder(sys, t, j)
    {
      assert Holder(sys, s, j);
      assert t.w.requests[j] == View(t.w, sys.n, j).request && s.w.requests[j] == View(s.w, sys.n, j).request;
      assert forall k: nat :: Claimed(t, k) <==> Claimed(s, k);
      NotYetClaimed(sys, s);
    }
  }

  lemma NotYetClaimed(sys: System, s: State)
    requires AnswersOk(sys, s)
    ensures !Claimed(s, |s.w.log|)
  {
  }

  /** A store touches neither the log nor what a slot holds. */
  lemma StoredAccounts(sys: System, s: State, i: nat, at: nat, b: seq<byte>, pc: Pc)
    requires Inv(sys, s) && Accounted(sys, s) && i < sys.n && at + |b| <= SCRATCH_BUF_SIZE
    requires HeldAt(s.pcs[i]) < 0 && HeldAt(pc) < 0
    ensures Accounted(sys, Stored(sys, s, i, at, b, pc))
  {
    SlotsInBounds(sys.n, i);
    var t := Stored(sys, s, i, at, b, pc);
    forall k: nat | k < |t.w.log|
      ensures Owned(sys, t, k)
    {
      assert Owned(sys, s, k);
      assert Claimed(s, k) ==> Claimed(t, k);
    }
    forall j: nat | j < sys.n
      ensures Holder(sys, t, j)
    {
      assert Holder(sys, s, j);
      assert forall k: nat :: Claimed(t, k) <==> Claimed(s, k);
    }
  }

  lemma WriteEffect(v: Slot, o: Outcome)
    requires FileRequest(v.request) && !IsRead(v.request) && v.commits == [] && v.pipe == v.request[80..]
    requires o.res >= 0 && Possible(v, PipeToFile(OffsetOf(v.request), SizeOf(v.request)), o)
    ensures var v2 := Exec(v, PipeToFile(OffsetOf(v.request), SizeOf(v.request)), o);
      v2.request == v.request && |v2.commits| == 1 && IsEffect(v.request, v2.commits[0], o.res == SizeOf(v.request))
  {
    assert v.pipe[..o.res] <= v.pipe;
  }

  lemma ReadEffect(v: Slot, off: nat, len: nat, o: Outcome)
    requires FileRequest(v.request) && IsRead(v.request) && v.commits == []
    requires o.res >= 0 && Possible(v, FileToPipe(off, len), o)
    ensures var v2 := Exec(v, FileToPipe(off, len), o);
      v2.request == v.request && |v2.commits| == 1 && IsEffect(v.request, v2.commits[0], true)
  {
  }

  /** The file operation of a chain, however much it moves. */
  lemma FileOpEffect(sys: System, s: State, i: nat, o: Outcome)
    requires Inv(sys, s) && Enabled(sys, s, Run(i, o)) && o.res >= 0 && s.pcs[i].k == FileOp(s.pcs[i].mem)
    ensures var v, pc := View(s.w, sys.n, i), s.pcs[i];
      var op := ChainOf(pc.mem, sys.fsize)[pc.k].op;
      var v2 := Exec(v, op, o);
      v2.request == v.request && |v2.commits| == 1 && IsEffect(v.request, v2.commits[0], o.res == op.len)
  {
    RunningSlot(sys, s, i);
    var v := View(s.w, sys.n, i);
    if IsRead(v.request) {
      ReadEffect(v, OffsetOf(v.request), Wanted(v.request, sys.fsize), o);
    } else {
      assert v.pipe == v.request[80..] by { assert SlotInv(sys, s, i); }
      WriteEffect(v, o);
    }
  }

  /** The operations of a chain besides its file operation touch neither the file nor the request. */
  lemma OtherOps(req: seq<byte>, fsize: nat, k: nat)
    requires |req| >= 80 && k < 3
    ensures var op := ChainOf(req, fsize)[k].op;
      !op.FuseToPipe? && (op.FileToPipe? || op.PipeToFile? <==> k == FileOp(req))
  {
  }

  lemma NoEffect(v: Slot, op: Op, o: Outcome)
    requires InBounds(v, op) && Possible(v, op, o) && !op.FuseToPipe?
    requires op.FileToPipe? || op.PipeToFile? ==> o.res < 0
    ensures Exec(v, op, o).commits == v.commits && Exec(v, op, o).request == v.request
  {
  }

  lemma OtherOpNoEffect(sys: System, s: State, i: nat, o: Outcome)
    requires Inv(sys, s) && Enabled(sys, s, Run(i, o)) && (o.res < 0 || s.pcs[i].k != FileOp(s.pcs[i].mem))
    ensures var v, pc := View(s.w, sys.n, i), s.pcs[i];
      var v2 := Exec(v, ChainOf(pc.mem, sys.fsize)[pc.k].op, o);
      v2.commits == [] && v2.request == v.request
  {
    OtherOps(s.pcs[i].mem, sys.fsize, s.pcs[i].k);
    NoEffect(View(s.w, sys.n, i), ChainOf(s.pcs[i].mem, sys.fsize)[s.pcs[i].k].op, o);
  }

  lemma RunActorAccounted(sys: System, s: State, i: nat, o: Outcome)
    requires Inv(sys, s) && Enabled(sys, s, Run(i, o))
    ensures var op := ChainOf(s.pcs[i].mem, sys.fsize)[s.pcs[i].k].op;
      ActorAccounted(s, i, RunPc(sys, s, i, o), Exec(View(s.w, sys.n, i), op, o))
  {
    assert View(s.w, sys.n, i).request == s.w.requests[i];
    if o.res >= 0 && s.pcs[i].k == FileOp(s.pcs[i].mem) {
      FileOpEffect(sys, s, i, o);
    } else {
      OtherOpNoEffect(sys, s, i, o);
    }
  }

  lemma RunAccounts(sys: System, s: State, i: nat, o: Outcome)
    requires Inv(sys, s) && Accounted(sys, s) && Enabled(sys, s, Run(i, o))
    ensures Accounted(sys, Next(sys, s, Run(i, o)))
  {
    var op, pc2 := ChainOf(s.pcs[i].mem, sys.fsize)[s.pcs[i].k].op, RunPc(sys, s, i, o);
    assert Next(sys, s, Run(i, o)) == Performed(sys, s, i, op, o, pc2);
    RunActorAccounted(sys, s, i, o);
    PerformedAccounts(sys, s, i, op, o, pc2);
  }

  /** Before the chain: nothing is held, before or after. */
  lemma QuietAccounts(sys: System, s: State, i: nat, op: Op, o: Outcome, pc: Pc)
    requires Inv(sys, s) && Accounted(sys, s) && Submits(s.w, sys.fds, sys.n, i, op, o)
    requires op.FuseToPipe? || op.ReadPipe?
    requires HeldAt(s.pcs[i]) == -1 == HeldAt(pc)
    ensures Accounted(sys, Performed(sys, s, i, op, o, pc))
  {
    PerformedAccounts(sys, s, i, op, o, pc);
  }

  lemma FinishAccounts(sys: System, s: State, i: nat)
    requires Inv(sys, s) && Accounted(sys, s) && Enabled(sys, s, Finish(i))
    ensures Accounted(sys, Next(sys, s, Finish(i)))
  {
    var t := Next(sys, s, Finish(i));
    FinisherHolds(sys, s, i);
    AnswerAccounts(sys, s, t, i, t.answers[|s.answers|]);
  }

  /** The entry a slot held becomes that of its answer. */
  lemma AnswerAccounts(sys: System, s: State, t: State, i: nat, a: Answer)
    requires Accounted(sys, s) && i < sys.n && HeldAt(s.pcs[i]) == a.at
    requires t.w == s.w && t.pcs == s.pcs[i := Idle] && t.answers == s.answers + [a]
    ensures Accounted(sys, t)
  {
    assert Holder(sys, s, i);
    forall k: nat | k < |t.w.log|
      ensures Owned(sys, t, k)
    {
      assert Owned(sys, s, k);
      ClaimedMore(s, t, a, k);
    }
    forall j: nat | j < sys.n
      ensures Holder(sys, t, j)
    {
      assert Holder(sys, s, j);
      OtherHolds(sys, s, t, i, a, j);
    }
  }

  lemma OtherHolds(sys: System, s: State, t: State, i: nat, a: Answer, j: nat)
    requires i < |s.pcs| && i < |s.w.requests| && j < |s.pcs| && j < |s.w.requests|
    requires Holder(sys, s, i) && Holder(sys, s, j) && HeldAt(s.pcs[i]) == a.at
    requires t.w == s.w && t.pcs == s.pcs[i := Idle] && t.answers == s.answers + [a]
    ensures Holder(sys, t, j)
  {
    var at := HeldAt(s.pcs[j]);
    if j != i && at >= 0 {
      ClaimedMore(s, t, a, at);
    }
  }

  lemma ClaimedMore(s: State, t: State, a: Answer, k: nat)
    requires t.answers == s.answers + [a]
    ensures Claimed(t, k) <==> Claimed(s, k) || k == a.at
  {
    assert a in t.answers;
    if Claimed(s, k) {
      var b :| b in s.answers && b.at == k;
      assert b in t.answers;
    }
  }

  lemma FinisherHolds(sys: System, s: State, i: nat)
    requires Inv(sys, s) && Accounted(sys, s) && i < sys.n && s.pcs[i].Running? && s.pcs[i].k == 3
    ensures HeldAt(s.pcs[i]) == s.pcs[i].at && Holder(sys, s, i)
  {
    RunningSlot(sys, s, i);
    assert Holder(sys, s, i);
  }

  lemma AskAccounts(sys: System, s: State, i: nat, max: nat, o: Outcome)
    requires Inv(sys, s) && Accounted(sys, s) && Enabled(sys, s, Ask(i, max, o))
    ensures Accounted(sys, Next(sys, s, Ask(i, max, o)))
  {
    var pc := if o.res < 0 then Dead(-1) else Header(|s.w.log|, 0);
    assert Next(sys, s, Ask(i, max, o)) == Performed(sys, s, i, FuseToPipe(max), o, pc);
    QuietAccounts(sys, s, i, FuseToPipe(max), o, pc);
  }

  lemma ReadHeaderAccounts(sys: System, s: State, i: nat, o: Outcome)
    requires Inv(sys, s) && Accounted(sys, s) && Enabled(sys, s, ReadHeader(i, o))
    ensures Accounted(sys, Next(sys, s, ReadHeader(i, o)))
  {
    QuietAccounts(sys, s, i, HeaderRead(s.pcs[i].done), o, HeaderPc(s.pcs[i], o));
  }

  lemma ReadBodyAccounts(sys: System, s: State, i: nat, o: Outcome)
    requires Inv(sys, s) && Accounted(sys, s) && Enabled(sys, s, ReadBody(i, o))
    ensures Accounted(sys, Next(sys, s, ReadBody(i, o)))
  {
    QuietAccounts(sys, s, i, BodyRead(s.pcs[i].got), o, BodyPc(s.pcs[i], o));
  }

  lemma CopyBodyAccounts(sys: System, s: State, i: nat)
    requires Inv(sys, s) && Accounted(sys, s) && Enabled(sys, s, CopyBody(i))
    ensures Accounted(sys, Next(sys, s, CopyBody(i)))
  {
    var pc, came := s.pcs[i], View(s.w, sys.n, i).header[40..s.pcs[i].done];
    assert Next(sys, s, CopyBody(i)) == Stored(sys, s, i, 0, came, Body(pc.start, pc.done - 40));
    StoredAccounts(sys, s, i, 0, came, Body(pc.start, pc.done - 40));
  }

  lemma StartAccounts(sys: System, s: State, i: nat)
    requires Inv(sys, s) && Accounted(sys, s) && Enabled(sys, s, Start(i))
    ensures Accounted(sys, Next(sys, s, Start(i)))
  {
    var pc, mem := s.pcs[i], MemoryOf(View(s.w, sys.n, i), s.pcs[i]);
    var head := Head(mem, sys.fsize);
    assert Next(sys, s, Start(i)) == Stored(sys, s, i, 0, head, Running(pc.start, 0, 0, mem));
    StoredAccounts(sys, s, i, 0, head, Running(pc.start, 0, 0, mem));
  }

  lemma StepAccounts(sys: System, s: State, step: Step)
    requires Inv(sys, s) && Accounted(sys, s) && Enabled(sys, s, step)
    ensures Accounted(sys, Next(sys, s, step))
  {
    match step {
      case Ask(i, max, o) => AskAccounts(sys, s, i, max, o);
      case ReadHeader(i, o) => ReadHeaderAccounts(sys, s, i, o);
      case CopyBody(i) => CopyBodyAccounts(sys, s, i);
      case ReadBody(i, o) => ReadBodyAccounts(sys, s, i, o);
      case Start(i) => StartAccounts(sys, s, i);
      case Run(i, o) => RunAccounts(sys, s, i, o);
      case Finish(i) => FinishAccounts(sys, s, i);
    }
  }

  // ------------------------------------------------------------ the theorems

  lemma InvHolds(sys: System, s: State)
    requires Initial(sys, s)
    ensures Inv(sys, s) && Accounted(sys, s)
  {
  }

  lemma {:induction false} RunsKeep(sys: System, s: State, steps: seq<Step>, t: State)
    requires Inv(sys, s) && Accounted(sys, s) && Reaches(sys, s, steps, t)
    ensures Inv(sys, t) && Accounted(sys, t)
    decreases |steps|
  {
    if steps != [] {
      StepKeeps(sys, s, steps[0]);
      StepAccounts(sys, s, steps[0]);
      RunsKeep(sys, Next(sys, s, steps[0]), steps[1..], t);
    }
  }

  /**
    Every interleaving of every number of slots, of any length, is linearizable, and the history
    respects real time: a request answered before another was taken comes first in it.
   */
  lemma EveryRunIsLinearizable(sys: System, s: State, steps: seq<Step>, t: State)
    requires Initial(sys, s) && Reaches(sys, s, steps, t)
    ensures Linearizable(sys, t)
    ensures forall a, b :: a in t.answers && b in t.answers && a.end <= b.start ==> a.at < b.at
  {
    InvHolds(sys, s);
    RunsKeep(sys, s, steps, t);
    InvIsEnough(sys, t);
  }

  lemma InvIsEnough(sys: System, t: State)
    requires Inv(sys, t) && Accounted(sys, t)
    ensures Linearizable(sys, t)
  {
    forall i: nat | i < sys.n
      ensures MessagesOk(sys, t.w.requests[i], t.w.replies[i], t.pcs[i], t.w.log, i, RepliesOf(t.answers, i))
    {
      assert SlotInv(sys, t, i);
      if t.pcs[i].Running? && t.pcs[i].k == 3 {
        UnreportedAnswer(sys, t, i);
      }
    }
  }

  lemma UnreportedAnswer(sys: System, s: State, i: nat)
    requires Inv(sys, s) && i < sys.n && s.pcs[i].Running? && s.pcs[i].k == 3
    ensures s.w.replies[i] != []
    ensures BeginsAnswer(s.w.requests[i], sys.fsize, s.w.log, i, HeldAt(s.pcs[i]),
                         s.w.replies[i][|s.w.replies[i]| - 1], true)
  {
    RunningSlot(sys, s, i);
    assert SlotInv(sys, s, i);
    FinisherReady(sys, s, i);
  }

  /** The request that entry k of the history belongs to. */
  ghost function OwnerOf(sys: System, s: State, k: nat): seq<byte>
    requires Accounted(sys, s) && k < |s.w.log|
  {
    assert Owned(sys, s, k);
    if Claimed(s, k) then var a :| a in s.answers && a.at == k; a.request
    else s.w.requests[s.w.log[k].slot]
  }

  /** The entry is that of an answered request or of a chain under way, not of one that broke. */
  ghost predicate Whole(sys: System, s: State, k: nat)
    requires Accounted(sys, s) && k < |s.w.log|
  {
    assert Owned(sys, s, k);
    Claimed(s, k) || s.pcs[s.w.log[k].slot].Running?
  }

  /** What was written: the whole payload, or a first part of it if the chain broke. */
  ghost function DataOf(sys: System, s: State, k: nat): seq<byte>
    requires Accounted(sys, s) && k < |s.w.log|
  {
    var req := OwnerOf(sys, s, k);
    if |req| >= 80 && Whole(sys, s, k) then req[80..] else s.w.log[k].commit.data
  }

  /** An answered request had its whole effect. */
  lemma ClaimedEffect(sys: System, s: State, k: nat, a: Answer)
    requires Linearizable(sys, s) && k < |s.w.log| && a in s.answers && a.at == k
    ensures var c := s.w.log[k].commit;
      FileRequest(a.request) && c.after == Effect(a.request, a.request[80..], c.before)
  {
    assert AnsweredBy(a.request, sys.fsize, s.w.log, a.slot, a.at, a.reply);
  }

  lemma HeldEffect(sys: System, s: State, k: nat)
    requires Linearizable(sys, s) && k < |s.w.log| && !Claimed(s, k)
    ensures var i := s.w.log[k].slot;
      i < sys.n && HeldAt(s.pcs[i]) == k && IsEffect(s.w.requests[i], s.w.log[k].commit, s.pcs[i].Running?)
  {
    assert Owned(sys, s, k);
    assert Holder(sys, s, s.w.log[k].slot);
  }

  lemma EntryIsEffect(sys: System, s: State, k: nat)
    requires Linearizable(sys, s) && k < |s.w.log|
    ensures var req, data, c := OwnerOf(sys, s, k), DataOf(sys, s, k), s.w.log[k].commit;
      && FileRequest(req) && c.after == Effect(req, data, c.before)
      && (!IsRead(req) ==> data <= req[80..] && (Whole(sys, s, k) ==> data == req[80..]))
  {
    if Claimed(s, k) {
      var req := OwnerOf(sys, s, k);
      var a :| a in s.answers && a.at == k && a.request == req;
      ClaimedEffect(sys, s, k, a);
    } else {
      HeldEffect(sys, s, k);
    }
  }

  /** One request as it is applied to a plain file: what of its payload is written. */
  datatype Applied = Applied(request: seq<byte>, data: seq<byte>)

  /** A plain file after the first k of these. */
  ghost function Replay(file0: seq<byte>, requests: seq<Applied>, k: nat): seq<byte>
    requires k <= |requests|
  {
    if k == 0 then file0
    else Effect(requests[k - 1].request, requests[k - 1].data, Replay(file0, requests, k - 1))
  }

  /** The requests in the order of the history. */
  ghost function InOrder(sys: System, s: State): (r: seq<Applied>)
    requires Accounted(sys, s)
    ensures |r| == |s.w.log|
  {
    seq(|s.w.log|, k requires 0 <= k < |s.w.log| => Applied(OwnerOf(sys, s, k), DataOf(sys, s, k)))
  }

  /** A plain file to which the requests were applied one after the other, in the order of the history. */
  ghost function PlainFile(sys: System, s: State, k: nat): seq<byte>
    requires Accounted(sys, s) && k <= |s.w.log|
  {
    Replay(sys.file0, InOrder(sys, s), k)
  }

  /** Entry k leads from the contents before it to those behind it by the effect of its request. */
  ghost predicate Leads(file0: seq<byte>, log: seq<Logged>, requests: seq<Applied>, k: nat)
    requires k < |log| == |requests|
  {
    FileAt(file0, log, k + 1) == Effect(requests[k].request, requests[k].data, FileAt(file0, log, k))
  }

  lemma EntryLeads(sys: System, s: State, k: nat)
    requires Linearizable(sys, s) && k < |s.w.log|
    ensures Leads(sys.file0, s.w.log, InOrder(sys, s), k)
  {
    EntryInHistory(sys.file0, s.w.log, s.w.file, k);
    EntryIsEffect(sys, s, k);
    assert InOrder(sys, s)[k] == Applied(OwnerOf(sys, s, k), DataOf(sys, s, k));
  }

  /** Such a history is that of the plain file. */
  lemma {:induction false} HistoryIsPlain(file0: seq<byte>, log: seq<Logged>, requests: seq<Applied>, k: nat)
    requires k <= |log| == |requests|
    requires forall j: nat :: j < |log| ==> Leads(file0, log, requests, j)
    ensures FileAt(file0, log, k) == Replay(file0, requests, k)
  {
    if k > 0 {
      HistoryIsPlain(file0, log, requests, k - 1);
      assert Leads(file0, log, requests, k - 1);
    }
  }

  lemma PlainAt(sys: System, s: State, k: nat)
    requires Linearizable(sys, s) && k <= |s.w.log|
    ensures FileAt(sys.file0, s.w.log, k) == PlainFile(sys, s, k)
  {
    forall j: nat | j < |s.w.log|
      ensures Leads(sys.file0, s.w.log, InOrder(sys, s), j)
    {
      EntryLeads(sys, s, j);
    }
    HistoryIsPlain(sys.file0, s.w.log, InOrder(sys, s), k);
  }

  lemma EntryInHistory(file0: seq<byte>, log: seq<Logged>, file: seq<byte>, k: nat)
    requires History(file0, log, file) && k < |log|
    ensures log[k].commit.before == FileAt(file0, log, k) && log[k].commit.after == FileAt(file0, log, k + 1)
  {
    assert Follows(file0, log, k);
  }

  /**
    At every point of every run, with whatever chains under way or failed, the backing file is a plain
    file to which one request after the other was applied, and nothing else ever changed it.
   */
  lemma FileIsPlain(sys: System, s: State, steps: seq<Step>, t: State)
    requires Initial(sys, s) && Reaches(sys, s, steps, t)
    ensures Accounted(sys, t) && t.w.file == PlainFile(sys, t, |t.w.log|)
    ensures forall k: nat :: k < |t.w.log| ==>
      FileRequest(OwnerOf(sys, t, k)) && (Whole(sys, t, k) && !IsRead(OwnerOf(sys, t, k)) ==>
        DataOf(sys, t, k) == OwnerOf(sys, t, k)[80..])
  {
    EveryRunIsLinearizable(sys, s, steps, t);
    PlainAt(sys, t, |t.w.log|);
    forall k: nat | k < |t.w.log|
      ensures FileRequest(OwnerOf(sys, t, k)) && (Whole(sys, t, k) && !IsRead(OwnerOf(sys, t, k)) ==>
        DataOf(sys, t, k) == OwnerOf(sys, t, k)[80..])
    {
      EntryIsEffect(sys, t, k);
    }
  }

  /** When no request is under way and none failed, the entries are those of the answered requests, one each. */
  lemma AllAnswered(sys: System, s: State)
    requires Linearizable(sys, s) && forall i :: 0 <= i < sys.n ==> s.pcs[i].Idle?
    ensures |s.answers| == |s.w.log|
    ensures forall k: nat :: k < |s.w.log| ==> Claimed(s, k)
  {
    forall k: nat | k < |s.w.log|
      ensures Claimed(s, k)
    {
      assert Owned(sys, s, k);
    }
    assert forall a :: a in s.answers ==> a.at < |s.w.log|;
    AsManyAnswers(s);
  }

  lemma AsManyAnswers(s: State)
    requires forall j, k :: 0 <= j < k < |s.answers| ==> s.answers[j].at != s.answers[k].at
    requires forall a :: a in s.answers ==> a.at < |s.w.log|
    requires forall k: nat :: k < |s.w.log| ==> Claimed(s, k)
    ensures |s.answers| == |s.w.log|
  {
    var ats := seq(|s.answers|, j requires 0 <= j < |s.answers| => s.answers[j].at);
    DistinctCard(ats);
    forall k: nat
      ensures k in Elements(ats) <==> k < |s.w.log|
    {
      if k < |s.w.log| {
        assert Claimed(s, k);
        var j :| 0 <= j < |s.answers| && s.answers[j].at == k;
        assert ats[j] == k;
      }
    }
    assert Elements(ats) == Range(|s.w.log|);
  }

  /**
    Each reply is what the plain file gives, after the requests before it were applied: a READ returns
    its bytes, and a WRITE replaces just its range.
   */
  lemma ReadSeesHistory(sys: System, s: State, a: Answer)
    requires Linearizable(sys, s) && a in s.answers
    ensures FileRequest(a.request) && a.at < |s.w.log|
    ensures Atomic(a.request, sys.fsize, PlainFile(sys, s, a.at)) == Served(a.reply, PlainFile(sys, s, a.at + 1))
  {
    AnswersEntry(sys, s, a);
    PlainAt(sys, s, a.at);
    PlainAt(sys, s, a.at + 1);
  }

  lemma AnswersEntry(sys: System, s: State, a: Answer)
    requires Linearizable(sys, s) && a in s.answers
    ensures FileRequest(a.request) && a.at < |s.w.log|
    ensures Atomic(a.request, sys.fsize, FileAt(sys.file0, s.w.log, a.at))
         == Served(a.reply, FileAt(sys.file0, s.w.log, a.at + 1))
  {
    EntryInHistory(sys.file0, s.w.log, s.w.file, a.at);
    assert AnsweredBy(a.request, sys.fsize, s.w.log, a.slot, a.at, a.reply);
  }
}
