/** queue_fuse_read: take one request from the fuse fd, gather its body, let its handler answer. */
module Dispatch {
  import opened Bytes
  import opened FuseKernel
  import opened KernelOps
  import opened RequestEngine
  import opened Handlers
  import opened FileRequests
  import opened Directory

  // ----------------------------------------------------- fetching a request

  function FetchChain(max: nat): seq<Sqe> {
    [Sqe(FuseToPipe(max), Hard), Sqe(ReadPipe(HeaderBuf, 0, HEADER_BUF_SIZE), NoLink)]
  }

  /**
    n bytes of the delivered request lie in the header buffer, the others in the pipe; the slot is
    otherwise as in s.
   */
  ghost predicate Fetched(s: Slot, t: Slot, n: nat) {
    && n <= |t.request| && n <= |t.header| == |s.header|
    && WellFormed(t.request)
    && t.header[..n] == t.request[..n] && t.pipe == t.request[n..]
    && t == s.(header := t.header, pipe := t.pipe, request := t.request)
  }

  /** The hard link lets the read follow a splice that is shorter than the room it was given. */
  lemma FetchRuns(s: Slot, max: nat, outs: seq<Outcome>)
    requires |s.header| == HEADER_BUF_SIZE && s.pipe == []
    requires PossibleChain(s, FetchChain(max), outs)
    ensures var r := ExecChain(s, FetchChain(max), outs);
      && (r.1[0] >= 0 ==> |r.0.request| == r.1[0] && Fetched(s, r.0, Max(r.1[1], 0)) && r.1[1] <= HEADER_BUF_SIZE)
      && (Failures(FetchChain(max), outs) == 0 <==> r.1[0] >= 40 && r.1[1] > 0)
  {
    var c := FetchChain(max);
    assert c == [c[0]] + [c[1]];
    UnrollChain(s, c[0], [c[1]], outs);
    var s1 := Exec(s, c[0].op, outs[0]);
    SingleOp(s1, c[1], outs[1..]);
    if outs[0].res >= 0 {
      var n := Max(outs[1].res, 0);
      assert s1.pipe == s1.request;
      if outs[1].res >= 0 {
        assert Patch(s.header, 0, s1.pipe[..n])[..n] == s1.pipe[..n];
      }
    }
  }

  /**
    The first chain and the header loop: on success at least the 40 header bytes are there, however
    the reads were cut.
   */
  method Fetch(io: FuseIo) returns (rbytes: int, initRead: int)
    requires io.Valid() && io.pipe == []
    modifies io, io.headerBuf, io.scratchBuf, io.heapBuf
    ensures io.Valid() && io.heapBuf == old(io.heapBuf)
    ensures rbytes >= 0 <==> io.failures == old(io.failures)
    ensures rbytes >= 0 ==>
      && IN_HEADER_SIZE <= initRead <= rbytes == |io.request|
      && Fetched(old(io.View()), io.View(), initRead)
  {
    var got := io.GetSqe();
    if !got {
      return -1, -1;
    }
    ghost var s := io.View();
    var chain := [Sqe(FuseToPipe(io.maxBufSize), Hard), Sqe(ReadPipe(HeaderBuf, 0, HEADER_BUF_SIZE), NoLink)];
    var rcs, outs := io.Complete(chain);
    assert chain == FetchChain(io.maxBufSize);
    FetchRuns(s, io.maxBufSize, outs);
    rbytes, initRead := rcs[0], rcs[1];
    if rbytes < 0 || rbytes < IN_HEADER_SIZE {
      return -1, -1;
    }
    if initRead > 0 && initRead < IN_HEADER_SIZE {
      while initRead < IN_HEADER_SIZE
        invariant io.Valid() && io.heapBuf == old(io.heapBuf)
        invariant 0 < initRead <= IN_HEADER_SIZE && |io.request| == rbytes && io.failures == old(io.failures)
        invariant Fetched(s, io.View(), initRead)
        decreases IN_HEADER_SIZE - initRead
      {
        ghost var before := io.View();
        var rc := io.ReadSome(HeaderBuf, initRead, IN_HEADER_SIZE - initRead);
        if rc <= 0 {
          return -1, -1;
        }
        FetchStep(s, before, initRead, rc);
        initRead := initRead + rc;
      }
    }
    if initRead < 0 || initRead < IN_HEADER_SIZE {
      return -1, -1;
    }
  }

  lemma FetchStep(s: Slot, v: Slot, n: nat, rc: nat)
    requires Fetched(s, v, n) && n + rc <= |v.header| && rc <= |v.pipe|
    ensures Fetched(s, v.(header := Patch(v.header, n, v.pipe[..rc]), pipe := v.pipe[rc..]), n + rc)
  {
    SubSlice(v.request, n, |v.request| - n, 0, rc);
    SubSlice(v.request, n, |v.request| - n, rc, |v.request| - n);
    PatchGrows(v.header, n, v.pipe[..rc], v.request);
  }

  // --------------------------------------------------------- the body needed

  /** req_read_rbytes: how many body bytes the handler of an opcode wants of a request of rbytes. */
  function BodySize(opcode: nat, rbytes: nat): nat
    requires rbytes >= IN_HEADER_SIZE
  {
    if opcode == FUSE_GETATTR then GETATTR_IN_SIZE
    else if opcode == FUSE_SETATTR then SETATTR_IN_SIZE
    else if opcode == FUSE_OPENDIR then OPEN_IN_SIZE
    else if opcode == FUSE_READDIR then READ_IN_SIZE
    else if opcode == FUSE_RELEASEDIR then RELEASE_IN_SIZE
    else if opcode == FUSE_OPEN then OPEN_IN_SIZE
    else if opcode == FUSE_READ then READ_IN_SIZE
    else if opcode == FUSE_RELEASE then RELEASE_IN_SIZE
    else if opcode == FUSE_WRITE then WRITE_IN_SIZE
    else rbytes - IN_HEADER_SIZE
  }

  /** The sizes of requests whose opcodes call for one: GETATTR, SETATTR, OPEN, READ, RELEASE and their likes. */
  predicate SizeFits(req: seq<byte>)
    requires |req| >= 40
  {
    var op := Opcode(req);
    && (op == 3 ==> |req| == 56) && (op == 4 ==> |req| == 128)
    && (op == 14 || op == 27 ==> |req| == 48) && (op == 15 || op == 28 ==> |req| == 80)
    && (op == 18 || op == 29 ==> |req| == 64)
  }

  /**
    After the body was read: p points at the n body bytes the handler wants, the header is in place,
    the pipe holds exactly what follows, and the rest of the slot is as in s.
   */
  ghost predicate BodyRead(s: Slot, t: Slot, p: Ptr, n: nat) {
    var req := t.request;
    && IN_HEADER_SIZE + n <= |req| && WellFormed(req)
    && |t.header| == HEADER_BUF_SIZE && t.header[..IN_HEADER_SIZE] == req[..IN_HEADER_SIZE]
    && |t.scratch| == |s.scratch| == SCRATCH_BUF_SIZE
    && t.pipe == req[IN_HEADER_SIZE + n..]
    && t.replies == s.replies && t.commits == s.commits
    && (n > 0 ==>
      && p.Ptr? && p.at + n <= |BufOf(t, p.buf)|
      && BufOf(t, p.buf)[p.at..p.at + n] == req[IN_HEADER_SIZE..IN_HEADER_SIZE + n]
      && (p.buf == HeaderBuf ==> p.at == IN_HEADER_SIZE) && (p.buf != HeaderBuf ==> p.at == 0)
      && (n > 40 && n + 1 < SCRATCH_BUF_SIZE ==> p.buf == ScratchBuf)
      && (n + 1 < SCRATCH_BUF_SIZE ==> p.buf != HeapBuf)
      && (p.buf == HeaderBuf ==> t.scratch == s.scratch)
      && (n + 1 < SCRATCH_BUF_SIZE ==> t.scratch[n + 1..] == s.scratch[n + 1..]))
    && (Opcode(req) == FUSE_LOOKUP ==> n > 0 && p.at + n < |BufOf(t, p.buf)| && BufOf(t, p.buf)[p.at + n] == 0)
  }

  /**
    The body of a request is read and its handler is about to run; initRead bytes of it came with the
    first read and its continuations for the header. A body stays in the header buffer exactly if all
    of it came so.
   */
  ghost predicate Ready(io: FuseIo, p: Ptr, s: Slot, initRead: nat)
    reads io, io.headerBuf, io.scratchBuf, io.heapBuf
  {
    && io.Valid() && |s.scratch| == SCRATCH_BUF_SIZE && |io.request| >= IN_HEADER_SIZE
    && var n := BodySize(Opcode(io.request), |io.request|);
    && BodyRead(s, io.View(), p, n)
    && (Opcode(io.request) != FUSE_WRITE ==> |io.request| == IN_HEADER_SIZE + n)
    && (n > 0 && Opcode(io.request) != FUSE_LOOKUP ==> (p.buf == HeaderBuf <==> initRead == IN_HEADER_SIZE + n))
  }

  /** The request is fetched; read the body its opcode calls for, or refuse a body of another size. */
  method ReadBody(io: FuseIo, rbytes: nat, initRead: nat, ghost s: Slot) returns (ok: bool, p: Ptr)
    requires io.Valid() && IN_HEADER_SIZE <= initRead <= rbytes == |io.request|
    requires Fetched(s, io.View(), initRead) && |s.scratch| == SCRATCH_BUF_SIZE
    modifies io, io.headerBuf, io.scratchBuf, io.heapBuf
    ensures io.Valid() && (io.heapBuf == old(io.heapBuf) || fresh(io.heapBuf))
    ensures io.request == old(io.request)
    ensures ok ==> Ready(io, p, s, initRead) && |io.request| == rbytes
    ensures ok <==> io.failures == old(io.failures) && SizeFits(io.request)
  {
    ghost var f := io.View();
    SameHeader(f.header, f.request, initRead);
    var opcode := Opcode(io.headerBuf[..]);
    var n := BodySize(opcode, rbytes);
    BodyFits(f.request);
    if n > 0 {
      if opcode != FUSE_WRITE && n != rbytes - IN_HEADER_SIZE {
        return false, Null;
      }
      p := io.ReadRbytes(n, opcode == FUSE_LOOKUP, initRead - IN_HEADER_SIZE);
      if p == Null {
        return false, Null;
      }
      assert f.header[IN_HEADER_SIZE..IN_HEADER_SIZE + (initRead - IN_HEADER_SIZE)] ==
        old(io.headerBuf[IN_HEADER_SIZE..IN_HEADER_SIZE + (initRead - IN_HEADER_SIZE)]);
      BodyOfRequest(f.header, f.request, initRead, n);
      ok := true;
    } else {
      ok, p := true, Null;
    }
  }

  /** The size test of queue_fuse_read. */
  lemma BodyFits(req: seq<byte>)
    requires |req| >= 40
    ensures var n := BodySize(Opcode(req), |req|);
      SizeFits(req) <==> n == 0 || Opcode(req) == FUSE_WRITE || n == |req| - 40
  {
  }

  /** The header fields, read from the buffer, are those of the request. */
  lemma SameHeader(h: seq<byte>, req: seq<byte>, n: nat)
    requires 40 <= n <= |h| && n <= |req| && h[..n] == req[..n]
    ensures h[..40] == req[..40]
    ensures Len(h) == Len(req) && Opcode(h) == Opcode(req) && Unique(h) == Unique(req) && NodeId(h) == NodeId(req)
  {
    assert h[..40] == h[..n][..40] == req[..n][..40] == req[..40];
    assert h[0..4] == h[..40][0..4] && req[0..4] == req[..40][0..4];
    assert h[4..8] == h[..40][4..8] && req[4..8] == req[..40][4..8];
    assert h[8..16] == h[..40][8..16] && req[8..16] == req[..40][8..16];
    assert h[16..24] == h[..40][16..24] && req[16..24] == req[..40][16..24];
  }

  /** What came with the header and what is still in the pipe make up the body. */
  lemma BodyOfRequest(h: seq<byte>, req: seq<byte>, initRead: nat, n: nat)
    requires 40 <= initRead <= |h| && initRead <= |req| && h[..initRead] == req[..initRead]
    requires initRead - 40 <= n && n - (initRead - 40) <= |req[initRead..]|
    ensures 40 + n <= |req|
    ensures (h[40..40 + (initRead - 40)] + req[initRead..])[..n] == req[40..40 + n]
    ensures req[initRead..][n - (initRead - 40)..] == req[40 + n..]
  {
    assert h[40..initRead] == h[..initRead][40..] == req[..initRead][40..] == req[40..initRead];
    assert h[40..initRead] + req[initRead..] == req[40..];
    SubSlice(req, 40, |req| - 40, 0, n);
    SubSlice(req, initRead, |req| - initRead, n - (initRead - 40), |req| - initRead);
  }

  // --------------------------------------------------------------- answering

  /** One message was sent, nothing is left in the pipe, the file was not touched. */
  ghost predicate Sent(s: Slot, t: Slot, msg: seq<byte>) {
    t.replies == s.replies + [msg] && t.pipe == [] && t.commits == s.commits
  }

  /**
    What the kernel chose: how many bytes of the request came with the header, its answer to the
    payload splice of a WRITE, and whether it granted every entry and no operation failed.
   */
  datatype Course = Course(initRead: nat, moved: int, smooth: bool)

  /** The flags handle_open sees: its own length field, 32, unless the body stayed in the header buffer. */
  function SeenFlags(b: seq<byte>, initRead: nat): nat
    requires |b| == OPEN_IN_SIZE
  {
    if initRead == IN_HEADER_SIZE + OPEN_IN_SIZE then Get32(b, 0) else 32
  }

  /** The bytes that lie where the READ handler for another node leaves the length field unset. */
  function StaleLengthField(s: Slot, b: seq<byte>, initRead: nat): seq<byte>
    requires |s.scratch| == SCRATCH_BUF_SIZE && |b| == READ_IN_SIZE
  {
    if initRead == IN_HEADER_SIZE + READ_IN_SIZE then s.scratch[0..4] else b[0..4]
  }

  /**
    The slot went from s, with an empty pipe, to t by serving t.request: the reply and the effect on
    the file, as functions of the request's bytes, the server, the course, and what the scratch
    buffer held before where the code shows that.
   */
  ghost predicate Answered(s: Slot, t: Slot, server: Server, c: Course)
    requires |s.scratch| == SCRATCH_BUF_SIZE
  {
    var req := t.request;
    |req| >= 40 && WellFormed(req) &&
    var b, unique, node, op := req[40..], Unique(req), NodeId(req), Opcode(req);
    if op == FUSE_GETATTR then
      |b| == 16 && Sent(s, t, AttrReply(unique, GetattrNode(node, b), server, s.scratch[28..32]))
    else if op == FUSE_SETATTR then
      |b| == 88 && Sent(s, t, AttrReply(unique, SetattrNode(node, b), server, b[28..32]))
    else if op == FUSE_LOOKUP then Sent(s, t, LookupReply(unique, CString(b), server))
    else if op == FUSE_OPEN then
      |b| == 8 && Sent(s, t, OpenReply(unique, 3, Or(SeenFlags(b, c.initRead), OPEN_EXTRA), s.scratch[28..32]))
    else if op == FUSE_OPENDIR then
      |b| == 8 && Sent(s, t, OpenReply(unique, 1, Or(SeenFlags(b, c.initRead), FOPEN_CACHE_DIR), s.scratch[28..32]))
    else if op == FUSE_READDIR then |b| == 40 && Sent(s, t, ReaddirReply(unique, Get64(b, 8)))
    else if op == FUSE_RELEASE || op == FUSE_RELEASEDIR then |b| == 24 && Sent(s, t, OutHeader(16, 0, unique))
    else if op == FUSE_READ then |b| == 40 && ReadAnswered(s, t, server, unique, node, b, c.initRead)
    else if op == FUSE_WRITE then
      |b| >= 40 && WriteAnswered(s.(pipe := b[40..]), t, unique, node, Get64(b, 8), Get32(b, 16), c.moved)
    else Sent(s, t, OutHeader(16, -ENOSYS, unique))
  }

  const OPEN_EXTRA := FOPEN_KEEP_CACHE + FOPEN_DIRECT_IO

  ghost predicate ReadAnswered(s: Slot, t: Slot, server: Server, unique: nat, node: nat, b: seq<byte>, initRead: nat)
    requires |s.scratch| == SCRATCH_BUF_SIZE && |b| == READ_IN_SIZE
  {
    if node == 3 then
      ReadServed(s, t, unique, Get64(b, 8), ClampedSize(Get64(b, 8), Get32(b, 16), server.fsize))
    else NotFoundSent(s, t, unique, StaleLengthField(s, b, initRead))
  }

  /**
    The request is a WRITE with data that is for another node, has a wrong length, or was not taken
    whole by the payload splice.
   */
  predicate LeavesPayload(req: seq<byte>, moved: int) {
    && |req| > 80 && Opcode(req) == FUSE_WRITE
    && !(NodeId(req) == 3 && |req| == 80 + Get32(req, 56) && moved == Get32(req, 56))
  }

  /** What a task that began on an empty pipe promises. */
  ghost predicate TaskResult(s: Slot, t: Slot, rc: int, server: Server, c: Course)
    requires |s.scratch| == SCRATCH_BUF_SIZE
  {
    s.pipe == [] ==>
      && (rc == 0 <==> c.smooth && |t.request| >= 40 && SizeFits(t.request))
      && (rc == 0 ==> Answered(s, t, server, c) && (t.pipe == [] <==> !LeavesPayload(t.request, c.moved)))
  }

  /** The fields of the body, seen from the request. */
  lemma BodyFields(req: seq<byte>, n: nat)
    requires 40 + n <= |req|
    ensures n >= 16 ==> Get64(req[40..40 + n], 8) == Get64(req[40..], 8) == Get64(req, 48)
    ensures n >= 20 ==> Get32(req[40..40 + n], 16) == Get32(req[40..], 16) == Get32(req, 56)
    ensures n >= 4 ==> Get32(req[40..40 + n], 0) == Get32(req[40..], 0)
    ensures |req| == 40 + n ==> req[40..40 + n] == req[40..]
    ensures n == 40 ==> req[40..][40..] == req[80..]
  {
    var all := req[40..];
    var body := req[40..40 + n];
    if n >= 16 {
      SubSlice(req, 40, n, 8, 16);
      SubSlice(req, 40, |req| - 40, 8, 16);
      assert body[8..16] == req[48..56] == all[8..16];
    }
    if n >= 20 {
      SubSlice(req, 40, n, 16, 20);
      SubSlice(req, 40, |req| - 40, 16, 20);
      assert body[16..20] == req[56..60] == all[16..20];
    }
    if n >= 4 {
      SubSlice(req, 40, n, 0, 4);
      SubSlice(req, 40, |req| - 40, 0, 4);
      assert body[0..4] == req[40..44] == all[0..4];
    }
    if |req| == 40 + n {
      assert body == all;
    }
    assert n == 40 ==> all[40..] == req[80..];
  }

  method AnswerRead(io: FuseIo, p: Ptr, ghost s: Slot, ghost initRead: nat) returns (rc: int)
    requires Ready(io, p, s, initRead) && Opcode(io.request) == FUSE_READ
    modifies io, io.headerBuf, io.scratchBuf, io.heapBuf
    ensures rc == 0 <==> io.failures == old(io.failures)
    ensures io.Valid() && io.heapBuf == old(io.heapBuf)
    ensures rc == 0 ==> io.request == old(io.request) && |io.request| == 80 && io.pipe == []
    ensures rc == 0 ==>
      var r := io.request;
      ReadAnswered(s, io.View(), io.server, Unique(r), NodeId(r), r[40..], initRead)
  {
    BodyIsRest(io, p, s, initRead);
    ghost var v := io.View();
    if p.buf == ScratchBuf {
      SubSlice(v.scratch, 0, READ_IN_SIZE, 0, 4);
    }
    assert io.scratchBuf[0..4] == v.scratch[0..4] == StaleLengthField(s, io.request[40..], initRead);
    rc := HandleRead(io, p);
  }

  method AnswerWrite(io: FuseIo, p: Ptr, ghost s: Slot, ghost initRead: nat) returns (rc: int, ghost moved: int)
    requires Ready(io, p, s, initRead) && Opcode(io.request) == FUSE_WRITE
    modifies io, io.headerBuf, io.scratchBuf, io.heapBuf
    ensures rc == 0 <==> io.failures == old(io.failures)
    ensures io.Valid() && io.heapBuf == old(io.heapBuf)
    ensures rc == 0 ==> io.request == old(io.request) && |io.request| >= 80
    ensures rc == 0 ==>
      var r := io.request;
      && WriteAnswered(s.(pipe := r[80..]), io.View(), Unique(r), NodeId(r), Get64(r, 48), Get32(r, 56), moved)
      && (io.pipe == [] <==> !LeavesPayload(r, moved))
  {
    ghost var v, req := io.View(), io.request;
    SameHeader(v.header, req, IN_HEADER_SIZE);
    BodyFields(req, 40);
    assert Body(io, p, 40) == req[40..80];
    assert io.pipe == req[80..];
    rc, moved := HandleWrite(io, p);
    if rc == 0 {
      WriteAnsweredFrom(v, s.(pipe := req[80..]), io.View(), Unique(req), NodeId(req), Get64(req, 48),
                        Get32(req, 56), moved);
    }
  }

  /** What a WRITE did depends only on the pipe, the replies and the file log before it. */
  lemma WriteAnsweredFrom(v: Slot, w: Slot, t: Slot, unique: nat, node: nat, off: nat, size: nat, moved: int)
    requires v.pipe == w.pipe && v.replies == w.replies && v.commits == w.commits
    requires WriteAnswered(v, t, unique, node, off, size, moved)
    ensures WriteAnswered(w, t, unique, node, off, size, moved)
  {
  }

  /** The body of a request with a body of fixed size, as the handlers see it. */
  lemma BodyIsRest(io: FuseIo, p: Ptr, s: Slot, initRead: nat)
    requires Ready(io, p, s, initRead) && Opcode(io.request) != FUSE_WRITE
    ensures io.pipe == []
    ensures Unique(io.headerBuf[..]) == Unique(io.request) && NodeId(io.headerBuf[..]) == NodeId(io.request)
    ensures |io.request| > 40 ==> HasBody(io, p, |io.request| - 40) && Body(io, p, |io.request| - 40) == io.request[40..]
  {
    SameHeader(io.headerBuf[..], io.request, IN_HEADER_SIZE);
    assert io.request[40..|io.request|] == io.request[40..];
  }

  /** Two buffers that agree from some place on agree in every slice behind it. */
  lemma SameTail(a: seq<byte>, b: seq<byte>, from: nat, lo: nat, hi: nat)
    requires |a| == |b| && from <= lo <= hi <= |a| && a[from..] == b[from..]
    ensures a[lo..hi] == b[lo..hi]
  {
    SubSlice(a, from, |a| - from, lo - from, hi - from);
    SubSlice(b, from, |b| - from, lo - from, hi - from);
  }

  method AnswerGetattr(io: FuseIo, p: Ptr, ghost s: Slot, ghost initRead: nat) returns (rc: int)
    requires Ready(io, p, s, initRead) && Opcode(io.request) == FUSE_GETATTR
    modifies io, io.headerBuf, io.scratchBuf, io.heapBuf
    ensures rc == 0 <==> io.failures == old(io.failures)
    ensures io.Valid() && io.heapBuf == old(io.heapBuf)
    ensures rc == 0 ==> io.request == old(io.request) && |io.request| == 56
    ensures rc == 0 ==>
      var r := io.request;
      Sent(s, io.View(), AttrReply(Unique(r), GetattrNode(NodeId(r), r[40..]), io.server, s.scratch[28..32]))
  {
    BodyIsRest(io, p, s, initRead);
    ghost var v := io.View();
    SameTail(v.scratch, s.scratch, GETATTR_IN_SIZE + 1, 28, 32);
    assert io.scratchBuf[28..32] == v.scratch[28..32];
    rc := HandleGetattr(io, p);
  }

  method AnswerSetattr(io: FuseIo, p: Ptr, ghost s: Slot, ghost initRead: nat) returns (rc: int)
    requires Ready(io, p, s, initRead) && Opcode(io.request) == FUSE_SETATTR
    modifies io, io.headerBuf, io.scratchBuf, io.heapBuf
    ensures rc == 0 <==> io.failures == old(io.failures)
    ensures io.Valid() && io.heapBuf == old(io.heapBuf)
    ensures rc == 0 ==> io.request == old(io.request) && |io.request| == 128
    ensures rc == 0 ==>
      var r := io.request;
      Sent(s, io.View(), AttrReply(Unique(r), SetattrNode(NodeId(r), r[40..]), io.server, r[40..][28..32]))
  {
    BodyIsRest(io, p, s, initRead);
    ghost var v := io.View();
    SubSlice(v.scratch, 0, 88, 28, 32);
    assert io.scratchBuf[28..32] == v.scratch[28..32] == io.request[40..][28..32];
    rc := HandleSetattr(io, p);
  }

  /** The name of a LOOKUP, with the zero the reader put behind it. */
  lemma NameInBody(io: FuseIo, p: Ptr, s: Slot, initRead: nat)
    requires Ready(io, p, s, initRead) && Opcode(io.request) == FUSE_LOOKUP
    ensures var n := |io.request| - 40;
      HasBody(io, p, n + 1) && Body(io, p, n + 1)[n] == 0 && Body(io, p, n + 1)[..n] == io.request[40..]
  {
    BodyIsRest(io, p, s, initRead);
    var n := |io.request| - 40;
    assert Body(io, p, n + 1)[..n] == Body(io, p, n);
  }

  method AnswerLookup(io: FuseIo, p: Ptr, ghost s: Slot, ghost initRead: nat) returns (rc: int)
    requires Ready(io, p, s, initRead) && Opcode(io.request) == FUSE_LOOKUP
    modifies io, io.headerBuf, io.scratchBuf, io.heapBuf
    ensures rc == 0 <==> io.failures == old(io.failures)
    ensures io.Valid() && io.heapBuf == old(io.heapBuf)
    ensures rc == 0 ==> io.request == old(io.request)
    ensures rc == 0 ==> Sent(s, io.View(), LookupReply(Unique(io.request), CString(io.request[40..]), io.server))
  {
    BodyIsRest(io, p, s, initRead);
    NameInBody(io, p, s, initRead);
    rc := HandleLookup(io, p, |io.request| - 40);
  }

  method AnswerOpen(io: FuseIo, p: Ptr, ghost s: Slot, ghost initRead: nat, fh: nat, extra: nat) returns (rc: int)
    requires Ready(io, p, s, initRead) && Opcode(io.request) in {FUSE_OPEN, FUSE_OPENDIR}
    modifies io, io.headerBuf, io.scratchBuf, io.heapBuf
    ensures rc == 0 <==> io.failures == old(io.failures)
    ensures io.Valid() && io.heapBuf == old(io.heapBuf)
    ensures rc == 0 ==> io.request == old(io.request) && |io.request| == 48
    ensures rc == 0 ==>
      var r := io.request;
      Sent(s, io.View(), OpenReply(Unique(r), fh, Or(SeenFlags(r[40..], initRead), extra), s.scratch[28..32]))
  {
    BodyIsRest(io, p, s, initRead);
    ghost var v := io.View();
    SameTail(v.scratch, s.scratch, OPEN_IN_SIZE + 1, 28, 32);
    assert io.scratchBuf[28..32] == v.scratch[28..32];
    rc := HandleOpen(io, p, fh, extra);
  }

  method AnswerReaddir(io: FuseIo, p: Ptr, ghost s: Slot, ghost initRead: nat) returns (rc: int)
    requires Ready(io, p, s, initRead) && Opcode(io.request) == FUSE_READDIR
    modifies io, io.headerBuf, io.scratchBuf, io.heapBuf
    ensures rc == 0 <==> io.failures == old(io.failures)
    ensures io.Valid() && (io.heapBuf == old(io.heapBuf) || fresh(io.heapBuf))
    ensures rc == 0 ==> io.request == old(io.request) && |io.request| == 80
    ensures rc == 0 ==> Sent(s, io.View(), ReaddirReply(Unique(io.request), Get64(io.request[40..], 8)))
  {
    BodyIsRest(io, p, s, initRead);
    rc := HandleReaddir(io, p);
  }

  method AnswerHeader(io: FuseIo, p: Ptr, ghost s: Slot, ghost initRead: nat, error: int) returns (rc: int)
    requires Ready(io, p, s, initRead) && Opcode(io.request) != FUSE_WRITE
    modifies io, io.headerBuf, io.scratchBuf, io.heapBuf
    ensures rc == 0 <==> io.failures == old(io.failures)
    ensures io.Valid() && io.heapBuf == old(io.heapBuf)
    ensures rc == 0 ==> io.request == old(io.request) && Sent(s, io.View(), OutHeader(16, error, Unique(io.request)))
  {
    BodyIsRest(io, p, s, initRead);
    rc := io.ReplyHeader(error);
  }

  /** The requests that are neither READ nor WRITE. */
  method AnswerSmall(io: FuseIo, p: Ptr, ghost s: Slot, ghost initRead: nat) returns (rc: int)
    requires Ready(io, p, s, initRead) && Opcode(io.request) !in {FUSE_READ, FUSE_WRITE}
    modifies io, io.headerBuf, io.scratchBuf, io.heapBuf
    ensures rc == 0 <==> io.failures == old(io.failures)
    ensures io.Valid() && (io.heapBuf == old(io.heapBuf) || fresh(io.heapBuf))
    ensures rc == 0 ==>
      && |io.request| >= 40 && Opcode(io.request) !in {FUSE_READ, FUSE_WRITE} && io.pipe == []
      && forall moved, smooth :: Answered(s, io.View(), io.server, Course(initRead, moved, smooth))
  {
    SameHeader(io.headerBuf[..], io.request, IN_HEADER_SIZE);
    var opcode := Opcode(io.headerBuf[..]);
    if opcode == FUSE_GETATTR {
      rc := AnswerGetattr(io, p, s, initRead);
    } else if opcode == FUSE_SETATTR {
      rc := AnswerSetattr(io, p, s, initRead);
    } else if opcode == FUSE_OPENDIR {
      rc := AnswerOpen(io, p, s, initRead, 1, FOPEN_CACHE_DIR);
    } else if opcode == FUSE_READDIR {
      rc := AnswerReaddir(io, p, s, initRead);
    } else if opcode == FUSE_LOOKUP {
      rc := AnswerLookup(io, p, s, initRead);
    } else if opcode == FUSE_OPEN {
      rc := AnswerOpen(io, p, s, initRead, 3, FOPEN_KEEP_CACHE + FOPEN_DIRECT_IO);
    } else if opcode == FUSE_RELEASE || opcode == FUSE_RELEASEDIR {
      rc := AnswerHeader(io, p, s, initRead, 0);
    } else {
      rc := AnswerHeader(io, p, s, initRead, -ENOSYS);
    }
  }

  /** The switch over the opcode. */
  method Answer(io: FuseIo, p: Ptr, ghost s: Slot, ghost initRead: nat) returns (rc: int, ghost moved: int)
    requires Ready(io, p, s, initRead)
    modifies io, io.headerBuf, io.scratchBuf, io.heapBuf
    ensures rc == 0 <==> io.failures == old(io.failures)
    ensures io.Valid() && (io.heapBuf == old(io.heapBuf) || fresh(io.heapBuf))
    ensures rc == 0 ==> Answered(s, io.View(), io.server, Course(initRead, moved, true))
    ensures rc == 0 ==> (io.pipe == [] <==> !LeavesPayload(io.request, moved))
  {
    SameHeader(io.headerBuf[..], io.request, IN_HEADER_SIZE);
    var opcode := Opcode(io.headerBuf[..]);
    moved := -1;
    if opcode == FUSE_READ {
      rc := AnswerRead(io, p, s, initRead);
    } else if opcode == FUSE_WRITE {
      rc, moved := AnswerWrite(io, p, s, initRead);
      assert rc == 0 ==> io.request[40..][40..] == io.request[80..];
      if rc == 0 {
        BodyFields(io.request, 40);
      }
    } else {
      rc := AnswerSmall(io, p, s, initRead);
    }
  }

  /**
    The whole coroutine on an empty pipe, for every way the kernel may cut, delay or refuse the
    operations: the result is zero if and only if every entry was granted, no operation failed and the
    request has the size its opcode calls for. Then the request was answered, and the pipe is empty
    again if and only if it was not a WRITE with data that is for another node, has a wrong length or
    was not taken whole by the kernel.
   */
  method QueueFuseRead(io: FuseIo) returns (rc: int, ghost c: Course)
    requires io.Valid() && io.pipe == []
    modifies io, io.headerBuf, io.scratchBuf, io.heapBuf
    ensures io.Valid() && (io.heapBuf == old(io.heapBuf) || fresh(io.heapBuf))
    ensures c.smooth <==> io.failures == old(io.failures)
    ensures rc == 0 <==> io.failures == old(io.failures) && |io.request| >= 40 && SizeFits(io.request)
    ensures rc == 0 ==> Answered(old(io.View()), io.View(), io.server, c)
    ensures rc == 0 ==> (io.pipe == [] <==> !LeavesPayload(io.request, c.moved))
    ensures TaskResult(old(io.View()), io.View(), rc, io.server, c)
  {
    ghost var s, before := io.View(), io.failures;
    c := Course(0, -1, false);
    var rbytes, initRead := Fetch(io);
    if rbytes < 0 {
      return -1, c;
    }
    var ok, p := ReadBody(io, rbytes, initRead, s);
    if !ok {
      c := Course(initRead, -1, io.failures == before);
      return -1, c;
    }
    ghost var moved;
    rc, moved := Answer(io, p, s, initRead);
    c := Course(initRead, moved, io.failures == before);
    if rc == 0 {
      AnsweredFits(s, io.View(), io.server, c);
    }
  }

  lemma AnsweredFits(s: Slot, t: Slot, server: Server, c: Course)
    requires |s.scratch| == SCRATCH_BUF_SIZE && Answered(s, t, server, c)
    ensures |t.request| >= 40 && SizeFits(t.request)
  {
  }

  // ------------------------------------------------------ what it comes to

  lemma WriteOf(s: Slot, t: Slot, server: Server, c: Course)
    requires |s.scratch| == SCRATCH_BUF_SIZE && Answered(s, t, server, c) && Opcode(t.request) == FUSE_WRITE
    ensures var r := t.request;
      && |r| >= 80
      && WriteAnswered(s.(pipe := r[80..]), t, Unique(r), NodeId(r), Get64(r, 48), Get32(r, 56), c.moved)
  {
    BodyFields(t.request, 40);
  }

  /**
    A WRITE for node 3 of the right length whose payload the kernel takes whole: if the task ends
    well, the file got exactly the payload at its offset, the success reply went out, and the pipe is
    empty.
   */
  lemma FullWriteIsServed(s: Slot, t: Slot, server: Server, c: Course)
    requires |s.scratch| == SCRATCH_BUF_SIZE && Answered(s, t, server, c) && Opcode(t.request) == FUSE_WRITE
    requires NodeId(t.request) == 3 && |t.request| == 80 + Get32(t.request, 56) && c.moved == Get32(t.request, 56)
    ensures t.pipe == []
    ensures WriteServed(s.(pipe := t.request[80..]), t, Unique(t.request), Get64(t.request, 48), Get32(t.request, 56))
  {
    WriteOf(s, t, server, c);
  }

  /** A request by its first four fields, the three behind them, which are not looked at, and its body. */
  function RequestOf(len: nat, op: nat, unique: nat, node: nat, body: seq<byte>): (req: seq<byte>)
    ensures |req| == 40 + |body|
  {
    Put32(len) + Put32(op) + Put64(unique) + Put64(node) + Zeros(16) + body
  }

  lemma FirstFields(len: nat, op: nat, unique: nat, node: nat, body: seq<byte>)
    requires len < TWO32 && op < TWO32 && unique < TWO64 && node < TWO64
    ensures var r := RequestOf(len, op, unique, node, body);
      Len(r) == len && Opcode(r) == op && Unique(r) == unique && NodeId(r) == node && r[40..] == body
  {
    var rest := Zeros(16) + body;
    assert RequestOf(len, op, unique, node, body) == Put32(len) + Put32(op) + Put64(unique) + Put64(node) + rest;
    FieldPlaces(Put32(len), Put32(op), Put64(unique), Put64(node), rest);
  }

  lemma FieldPlaces(len: seq<byte>, op: seq<byte>, unique: seq<byte>, node: seq<byte>, rest: seq<byte>)
    requires |len| == |op| == 4 && |unique| == |node| == 8
    ensures var r := len + op + unique + node + rest;
      r[0..4] == len && r[4..8] == op && r[8..16] == unique && r[16..24] == node && r[24..] == rest
  {
  }

  /** A WRITE of one byte to a node that is not the file is a well-formed request. */
  lemma StrayWrite(len: nat, op: nat, unique: nat, node: nat, body: seq<byte>, b: byte)
    requires len == 81 && op == FUSE_WRITE && unique < TWO64 && node < TWO64 && node != 3 && |body| == 40
    ensures var req := RequestOf(len, op, unique, node, body + [b]);
      && WellFormed(req) && Opcode(req) == FUSE_WRITE && NodeId(req) == node && Unique(req) == unique
      && req[80..] == [b] && forall moved :: LeavesPayload(req, moved)
  {
    FirstFields(len, op, unique, node, body + [b]);
    assert RequestOf(len, op, unique, node, body + [b])[80..] == (body + [b])[40..];
  }

  /**
    The reply to it, when both operations of send_reply move all they are asked to: the payload byte
    and 15 bytes of the error reply go to the kernel, and its last byte stays in the pipe.
   */
  lemma StrayWriteFails(s: Slot, unique: nat, b: byte, file: seq<byte>)
    requires |s.scratch| == SCRATCH_BUF_SIZE && s.pipe == [b] && s.scratch[..16] == OutHeader(16, -ENOENT, unique)
    ensures var chain := [Sqe(WritePipe(ScratchBuf, 16), Soft), Sqe(PipeToFuse(16), NoLink)];
      var full := Outcome(16, file, [], []);
      var msg := OutHeader(16, -ENOENT, unique);
      && PossibleChain(s, chain, [full, full])
      && ExecChain(s, chain, [full, full]).1 == [16, 16]
      && ExecChain(s, chain, [full, full]).0 == s.(pipe := [msg[15]], replies := s.replies + [[b] + msg[..15]])
  {
    var a, c := Sqe(WritePipe(ScratchBuf, 16), Soft), Sqe(PipeToFuse(16), NoLink);
    var full, msg := Outcome(16, file, [], []), OutHeader(16, -ENOENT, unique);
    var s1 := Exec(s, a.op, full);
    assert s1.pipe == [b] + msg;
    assert ([b] + msg)[..16] == [b] + msg[..15] && ([b] + msg)[16..] == [msg[15]];
    assert [a, c] == [a] + [c] && [a, c][1..] == [c] && [full, full][1..] == [full];
    assert PossibleChain(s1, [c], [full]);
    assert PossibleChain(s, [a, c], [full, full]);
    UnrollChain(s, a, [c], [full, full]);
    SingleOp(s1, c, [full]);
  }

  /**
    Whoever answers a WRITE with data for another node well has sent the first 16 bytes of payload and
    reply, the payload first, and the rest, as many bytes as the payload has, is left in the pipe.
   */
  lemma StrayWriteLeavesPayload(s: Slot, t: Slot, server: Server, c: Course)
    requires |s.scratch| == SCRATCH_BUF_SIZE && Answered(s, t, server, c)
    requires Opcode(t.request) == FUSE_WRITE && NodeId(t.request) != 3 && |t.request| > 80
    ensures var q := t.request[80..] + OutHeader(16, -ENOENT, Unique(t.request));
      t.replies == s.replies + [q[..16]] && t.pipe == q[16..] && t.commits == s.commits
    ensures |t.pipe| == |t.request| - 80
  {
    WriteOf(s, t, server, c);
  }
}
