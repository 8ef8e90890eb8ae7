/**
  One slot and the coroutine that serves a request on it. Every co_await of a chain is a call of
  Complete, in which the kernel acts and other slots may change the backing file.
 */
module RequestEngine {
  import opened Bytes
  import opened FuseKernel
  import opened KernelOps

  /** Where read_rbytes left the request body; nullptr after a failure. */
  datatype Ptr = Null | Ptr(buf: Buf, at: nat)

  /** The effect of reading n bytes from the pipe to offset at of a buffer. */
  function ReadInto(v: Slot, buf: Buf, at: nat, n: nat): (w: Slot)
    requires n <= |v.pipe| && at + n <= |BufOf(v, buf)|
    ensures |BufOf(w, buf)| == |BufOf(v, buf)| && |w.pipe| == |v.pipe| - n
  {
    WithBuf(v, buf, Patch(BufOf(v, buf), at, v.pipe[..n])).(pipe := v.pipe[n..])
  }

  /** `sent` is n bytes of memory from the start of a buffer on, past its end if it is shorter. */
  ghost predicate Begins(buf: seq<byte>, sent: seq<byte>, n: nat) {
    |sent| == n && if n <= |buf| then sent == buf[..n] else buf <= sent
  }

  lemma ReadNothing(v: Slot, buf: Buf, at: nat)
    requires at <= |BufOf(v, buf)|
    ensures ReadInto(v, buf, at, 0) == v
  {
    assert Patch(BufOf(v, buf), at, v.pipe[..0]) == BufOf(v, buf);
    assert WithBuf(v, buf, BufOf(v, buf)) == v;
  }

  lemma PatchTwice(b: seq<byte>, at: nat, p: seq<byte>, n: nat, m: nat)
    requires n + m <= |p| && at + n + m <= |b|
    ensures Patch(Patch(b, at, p[..n]), at + n, p[n..][..m]) == Patch(b, at, p[..n + m])
  {
  }

  /** Two reads, the second behind the first, are one; `done` is where the second begins, `end` where it ends. */
  lemma ReadOn(v: Slot, w: Slot, buf: Buf, at: nat, done: nat, end: nat)
    requires at <= done <= end <= |BufOf(v, buf)| && end - at <= |v.pipe|
    requires w == ReadInto(v, buf, at, done - at)
    ensures ReadInto(w, buf, done, end - done) == ReadInto(v, buf, at, end - at)
  {
    var n, m := done - at, end - done;
    var b, p := BufOf(v, buf), v.pipe;
    var c, d := Patch(b, at, p[..n]), Patch(b, at, p[..n + m]);
    assert Patch(c, done, p[n..][..m]) == d by { PatchTwice(b, at, p, n, m); }
    assert p[n..][m..] == p[n + m..];
    StoreTwice(v, buf, c, d, p[n..], p[n + m..]);
  }

  lemma ReadsJoin(v0: Slot, v: Slot, w: Slot, buf: Buf, at: nat, done: nat, rc: int)
    requires at <= done <= |BufOf(v0, buf)| && done - at <= |v0.pipe| && v == ReadInto(v0, buf, at, done - at)
    requires rc <= |v.pipe| && done + rc <= |BufOf(v, buf)|
    requires if rc > 0 then w == ReadInto(v, buf, done, rc) else w == v
    ensures done + Max(rc, 0) - at <= |v0.pipe| && w == ReadInto(v0, buf, at, done + Max(rc, 0) - at)
  {
    if rc > 0 {
      ReadOn(v0, v, buf, at, done, done + rc);
    }
  }

  /** A second store replaces the first. */
  lemma StoreTwice(v: Slot, buf: Buf, c: seq<byte>, d: seq<byte>, p: seq<byte>, q: seq<byte>)
    ensures BufOf(WithBuf(v, buf, c).(pipe := p), buf) == c
    ensures WithBuf(WithBuf(v, buf, c).(pipe := p), buf, d).(pipe := q) == WithBuf(v, buf, d).(pipe := q)
  {
  }

  /** What was read lies behind what the buffer began with; bytes from hi on, and all else, are as they were. */
  lemma ReadFacts(v: Slot, buf: Buf, at: nat, n: nat, hi: nat)
    requires n <= |v.pipe| && at + n <= hi <= |BufOf(v, buf)| && buf != HeaderBuf
    ensures var w := ReadInto(v, buf, at, n);
      && w.request == v.request && w.replies == v.replies && w.commits == v.commits && w.header == v.header
      && BufOf(w, buf)[..at + n] == (BufOf(v, buf)[..at] + v.pipe)[..at + n]
      && w.pipe == v.pipe[n..]
      && (if buf == ScratchBuf then w.scratch[hi..] == v.scratch[hi..] else w.scratch == v.scratch)
  {
    PatchFacts(BufOf(v, buf), at, v.pipe[..n]);
  }

  class FuseIo {
    const headerBuf: array<byte>
    const scratchBuf: array<byte>
    var heapBuf: array<byte>      // the vector of the running coroutine
    const server: Server
    const maxBufSize: nat
    // The kernel's side: the pipe, the messages the fuse fd accepted, the request it delivered
    // last, and what was done to the backing file.
    var pipe: seq<byte>
    var replies: seq<seq<byte>>
    var request: seq<byte>
    var commits: seq<Commit>
    ghost var failures: nat       // entries refused and operations that failed, so far

    predicate Valid()
      reads this
    {
      && headerBuf.Length == HEADER_BUF_SIZE && scratchBuf.Length == SCRATCH_BUF_SIZE
      && headerBuf != scratchBuf && heapBuf != headerBuf && heapBuf != scratchBuf
    }

    function View(): Slot
      reads this, headerBuf, scratchBuf, heapBuf
    {
      Slot(pipe, headerBuf[..], scratchBuf[..], heapBuf[..], request, replies, commits)
    }

    constructor (server: Server, maxBufSize: nat)
      ensures Valid() && fresh(headerBuf) && fresh(scratchBuf) && fresh(heapBuf)
      ensures pipe == [] && replies == [] && commits == []
      ensures this.server == server && this.maxBufSize == maxBufSize
    {
      headerBuf := new byte[HEADER_BUF_SIZE](_ => 0);
      scratchBuf := new byte[SCRATCH_BUF_SIZE](_ => 0);
      heapBuf := new byte[0];
      this.server, this.maxBufSize := server, maxBufSize;
      pipe, replies, request, commits, failures := [], [], [], [], 0;
    }

    /** Store s, which has buffers of the same sizes, in the fields and arrays. */
    method Store(s: Slot)
      requires Valid() && |s.header| == HEADER_BUF_SIZE && |s.scratch| == SCRATCH_BUF_SIZE && |s.heap| == heapBuf.Length
      modifies this`pipe, this`replies, this`request, this`commits, headerBuf, scratchBuf, heapBuf
      ensures Valid() && View() == s
    {
      pipe, request, replies, commits := s.pipe, s.request, s.replies, s.commits;
      forall i | 0 <= i < headerBuf.Length { headerBuf[i] := s.header[i]; }
      forall i | 0 <= i < scratchBuf.Length { scratchBuf[i] := s.scratch[i]; }
      forall i | 0 <= i < heapBuf.Length { heapBuf[i] := s.heap[i]; }
      assert headerBuf[..] == s.header && scratchBuf[..] == s.scratch && heapBuf[..] == s.heap;
    }

    /** The kernel runs one operation as it likes. */
    method Perform(op: Op) returns (o: Outcome)
      requires Valid() && InBounds(View(), op)
      modifies this`pipe, this`replies, this`request, this`commits, this`failures, headerBuf, scratchBuf, heapBuf
      ensures Valid()
      ensures Possible(old(View()), op, o) && View() == Exec(old(View()), op, o)
      ensures failures == old(failures) + (if Fails(op, o.res) then 1 else 0)
    {
      var wish: Outcome := *;
      o := if Possible(View(), op, wish) then wish else Outcome(-1, [], [], []);
      Store(Exec(View(), op, o));
      failures := failures + (if Fails(op, o.res) then 1 else 0);
    }

    /** co_await io.complete(chain): the results of the chain, in its order. */
    method Complete(chain: seq<Sqe>) returns (rcs: seq<int>, ghost outs: seq<Outcome>)
      requires Valid()
      requires forall e :: e in chain ==> InBounds(View(), e.op)
      modifies this`pipe, this`replies, this`request, this`commits, this`failures, headerBuf, scratchBuf, heapBuf
      ensures Valid()
      ensures PossibleChain(old(View()), chain, outs)
      ensures (View(), rcs) == ExecChain(old(View()), chain, outs)
      ensures failures == old(failures) + Failures(chain, outs)
      decreases |chain|
    {
      if chain == [] {
        return [], [];
      }
      var o := Perform(chain[0].op);
      if Severs(chain[0], o.res) {
        rcs := [o.res] + Cancelled(|chain| - 1);
        outs := [o] + seq(|chain| - 1, _ => o);
      } else {
        var more, moreOuts := Complete(chain[1..]);
        rcs, outs := [o.res] + more, [o] + moreOuts;
        assert outs[1..] == moreOuts;
      }
    }

    /**
      Whether get_sqe finds an entry. For chains, only the reservation is asked: the entries behind a
      granted reservation are always there (SubmissionRing.Ring.QueueChain).
     */
    method GetSqe() returns (ok: bool)
      modifies this`failures
      ensures failures == old(failures) + (if ok then 0 else 1)
    {
      ok := *;
      failures := failures + (if ok then 0 else 1);
    }

    /** Memory, pipe and log of a slot whose task only consumed some of its pipe since s. */
    ghost predicate OnlyRead(s: Slot)
      reads this, headerBuf, scratchBuf, heapBuf
    {
      request == s.request && replies == s.replies && commits == s.commits && headerBuf[..] == s.header
    }

    /**
      read_rbytes: whatever sizes the reads come in, a non-null result points at the next rbytes of
      the request body, the first initRead of which came with the header, and exactly those left the
      pipe. A terminating zero follows if asked for.
     */
    method ReadRbytes(rbytes: nat, addZero: bool, initRead: nat) returns (p: Ptr)
      requires Valid() && initRead <= rbytes && IN_HEADER_SIZE + initRead <= HEADER_BUF_SIZE
      modifies this, headerBuf, scratchBuf, heapBuf
      ensures Valid() && OnlyRead(old(View()))
      ensures heapBuf == old(heapBuf) || fresh(heapBuf)
      ensures p.Ptr? <==> failures == old(failures)
      ensures p.Ptr? ==>
        && rbytes - initRead <= |old(pipe)| && pipe == old(pipe)[rbytes - initRead..]
        && p.at + rbytes + (if addZero && rbytes > 0 then 1 else 0) <= |BufOf(View(), p.buf)|
        && BufOf(View(), p.buf)[p.at..p.at + rbytes]
           == (old(headerBuf[IN_HEADER_SIZE..IN_HEADER_SIZE + initRead]) + old(pipe))[..rbytes]
        && (addZero && rbytes > 0 ==> BufOf(View(), p.buf)[p.at + rbytes] == 0)
      ensures p.Ptr? && p.buf == HeaderBuf ==> p.at == IN_HEADER_SIZE && scratchBuf[..] == old(scratchBuf[..])
      ensures p.Ptr? && p.buf != HeaderBuf ==> p.at == 0
      ensures p.Ptr? && rbytes > 0 ==> (p.buf == HeaderBuf <==> initRead == rbytes && !addZero)
      ensures p.Ptr? && p.buf == HeapBuf ==> rbytes >= SCRATCH_BUF_SIZE - 1
      // The scratch buffer behind the body keeps what it held.
      ensures rbytes + 1 < SCRATCH_BUF_SIZE ==> scratchBuf[..][rbytes + 1..] == old(scratchBuf[..])[rbytes + 1..]
    {
      if rbytes == 0 {
        return Ptr(ScratchBuf, 0);
      }
      var ioRead := true;
      if initRead == rbytes {
        if addZero {
          ioRead := false;
        } else {
          return Ptr(HeaderBuf, IN_HEADER_SIZE);
        }
      }
      ghost var scratch := scratchBuf[..];
      var room := rbytes + if addZero then 1 else 0;
      var buf := ScratchBuf;
      if room < SCRATCH_BUF_SIZE {
        CopyBody(scratchBuf, initRead);
      } else {
        heapBuf := new byte[room](_ => 0);
        CopyBody(heapBuf, initRead);
        buf := HeapBuf;
      }
      assert rbytes < SCRATCH_BUF_SIZE ==> scratchBuf[..][rbytes..] == scratch[rbytes..];
      if ioRead {
        var ok := ReadRest(buf, initRead, rbytes);
        assert rbytes < SCRATCH_BUF_SIZE ==> scratchBuf[..][rbytes..] == scratch[rbytes..];
        if !ok {
          return Null;
        }
      }
      assert old(headerBuf[IN_HEADER_SIZE..IN_HEADER_SIZE + initRead])
          == old(headerBuf[..])[IN_HEADER_SIZE..IN_HEADER_SIZE + initRead];
      if addZero {
        if buf == ScratchBuf {
          scratchBuf[rbytes] := 0;
        } else {
          heapBuf[rbytes] := 0;
        }
      }
      p := Ptr(buf, 0);
    }

    /** memcpy of the body bytes that came with the header. */
    method CopyBody(to: array<byte>, n: nat)
      requires Valid() && IN_HEADER_SIZE + n <= HEADER_BUF_SIZE && n <= to.Length && to != headerBuf
      modifies to
      ensures to[..n] == headerBuf[IN_HEADER_SIZE..IN_HEADER_SIZE + n]
      ensures forall i :: n <= i < to.Length ==> to[i] == old(to[i])
    {
      forall i | 0 <= i < n { to[i] := headerBuf[IN_HEADER_SIZE + i]; }
    }

    /** One read of at most len bytes; a failure, or no entry for it, is reported as a value below 1. */
    method ReadSome(buf: Buf, at: nat, len: nat) returns (rc: int)
      requires Valid() && at + len <= |BufOf(View(), buf)|
      modifies this`pipe, this`replies, this`request, this`commits, this`failures, headerBuf, scratchBuf, heapBuf
      ensures Valid() && rc <= len && rc <= |old(pipe)|
      ensures failures == old(failures) + (if rc > 0 then 0 else 1)
      ensures rc <= 0 ==> View() == old(View())
      ensures rc > 0 ==> View() == ReadInto(old(View()), buf, at, rc)
    {
      var got := GetSqe();
      if !got {
        return -1;
      }
      ghost var s := View();
      var e := Sqe(ReadPipe(buf, at, len), NoLink);
      var rcs, outs := Complete([e]);
      SingleOp(s, e, outs);
      rc := rcs[0];
      if rc == 0 {
        ReadNothing(s, buf, at);
      }
    }

    /** One turn of the read loop: v0 is the slot before the loop, `done` how far it has come. */
    method ReadMore(buf: Buf, ghost v0: Slot, ghost initRead: nat, done: nat, rbytes: nat)
      returns (rc: int, end: nat)
      requires Valid() && initRead <= done < rbytes <= |BufOf(v0, buf)| && done - initRead <= |v0.pipe|
      requires View() == ReadInto(v0, buf, initRead, done - initRead)
      modifies this`pipe, this`replies, this`request, this`commits, this`failures, headerBuf, scratchBuf, heapBuf
      ensures Valid() && end == done + Max(rc, 0) <= rbytes && end - initRead <= |v0.pipe|
      ensures failures == old(failures) + (if rc > 0 then 0 else 1)
      ensures View() == ReadInto(v0, buf, initRead, end - initRead)
    {
      ghost var v := View();
      assert |BufOf(v, buf)| == |BufOf(v0, buf)| && |v.pipe| == |v0.pipe| - (done - initRead);
      rc := ReadSome(buf, done, rbytes - done);
      end := done + Max(rc, 0);
      ghost var w := View();
      assert if rc > 0 then w == ReadInto(v, buf, done, rc) else w == v;
      ReadsJoin(v0, v, w, buf, initRead, done, rc);
    }

    /** The read loop: it ends, because every read that does not fail shortens what is still wanted. */
    method ReadRest(buf: Buf, initRead: nat, rbytes: nat) returns (ok: bool)
      requires Valid() && buf != HeaderBuf && initRead < rbytes <= |BufOf(View(), buf)|
      modifies this`pipe, this`replies, this`request, this`commits, this`failures, headerBuf, scratchBuf, heapBuf
      ensures Valid() && OnlyRead(old(View()))
      ensures |BufOf(View(), buf)| == |BufOf(old(View()), buf)|
      ensures buf == ScratchBuf ==> scratchBuf[..][rbytes..] == old(scratchBuf[..])[rbytes..]
      ensures buf == HeapBuf ==> scratchBuf[..] == old(scratchBuf[..])
      ensures ok <==> failures == old(failures)
      ensures ok ==>
        && rbytes - initRead <= |old(pipe)| && pipe == old(pipe)[rbytes - initRead..]
        && BufOf(View(), buf)[..rbytes] == (BufOf(old(View()), buf)[..initRead] + old(pipe))[..rbytes]
    {
      ghost var v0 := View();
      var done := initRead;
      ReadNothing(v0, buf, initRead);
      while done < rbytes
        invariant Valid() && initRead <= done <= rbytes && done - initRead <= |v0.pipe|
        invariant View() == ReadInto(v0, buf, initRead, done - initRead) && failures == old(failures)
        decreases rbytes - done
      {
        var rc;
        rc, done := ReadMore(buf, v0, initRead, done, rbytes);
        if rc <= 0 {
          ReadFacts(v0, buf, initRead, done - initRead, rbytes);
          return false;
        }
      }
      ReadFacts(v0, buf, initRead, rbytes - initRead, rbytes);
      ok := true;
    }

    /** Store bytes anywhere in one of the buffers: an assignment to a field of the request body. */
    method PokeAt(buf: Buf, at: nat, b: seq<byte>)
      requires Valid() && at + |b| <= |BufOf(View(), buf)|
      modifies headerBuf, scratchBuf, heapBuf
      ensures View() == WithBuf(old(View()), buf, Patch(BufOf(old(View()), buf), at, b))
    {
      var a := match buf case HeaderBuf => headerBuf case ScratchBuf => scratchBuf case HeapBuf => heapBuf;
      forall i | 0 <= i < |b| { a[at + i] := b[i]; }
      assert a[..] == Patch(old(a[..]), at, b);
    }

    // --------------------------------------------------------------- replies

    /** Exactly `msg` went to the fuse fd since s, and the pipe was drained; nothing else happened. */
    ghost predicate Replied(s: Slot, msg: seq<byte>)
      reads this
    {
      replies == s.replies + [msg] && pipe == [] && commits == s.commits && request == s.request
    }

    /** Store the bytes b at offset at of the scratch buffer: an assignment to a field of a record there. */
    method Poke(at: nat, b: seq<byte>)
      requires Valid() && at + |b| <= SCRATCH_BUF_SIZE
      modifies scratchBuf
      ensures scratchBuf[..] == Patch(old(scratchBuf[..]), at, b)
    {
      forall i | 0 <= i < |b| { scratchBuf[at + i] := b[i]; }
    }

    /** The three assignments every handler starts its reply with. */
    method PutOutHeader(len: nat, error: int, unique: nat)
      requires Valid()
      modifies scratchBuf
      ensures scratchBuf[..] == Patch(old(scratchBuf[..]), 0, OutHeader(len, error, unique))
    {
      Poke(4, Put32(error));
      Poke(0, Put32(len));
      Poke(8, Put64(unique));
      HeaderInThree(old(scratchBuf[..]), Put32(len), Put32(error), Put64(unique));
    }

    /**
      send_reply of the scratch buffer: write as many bytes as its length field says to the pipe, then
      splice as many to the fuse fd, which is nothing if it says 0. If something was queued in the
      pipe already, that is what the kernel sees first; if the length is more than the buffer, memory behind the buffer goes with it.
     */
    method SendReply() returns (rc: int, ghost sent: seq<byte>)
      requires Valid()
      modifies this`pipe, this`replies, this`request, this`commits, this`failures, headerBuf, scratchBuf, heapBuf
      ensures Valid() && (rc == 0 || rc == -1) && (rc == 0 <==> failures == old(failures))
      ensures headerBuf[..] == old(headerBuf[..]) && scratchBuf[..] == old(scratchBuf[..])
      ensures request == old(request) && commits == old(commits)
      ensures rc == 0 ==>
        var n := Get32(old(scratchBuf[..]), 0);
        && Begins(old(scratchBuf[..]), sent, n)
        && replies == old(replies) + Message((old(pipe) + sent)[..n]) && pipe == (old(pipe) + sent)[n..]
    {
      sent := [];
      var got := GetSqe();
      if !got {
        return -1, [];
      }
      var n := Get32(scratchBuf[..], 0);
      rc, sent := WriteAndSplice(ScratchBuf, n);
    }

    /** send_reply of a vector: the same two operations on a buffer of the coroutine's own. */
    method SendVector(data: seq<byte>) returns (rc: int)
      requires Valid()
      modifies this, headerBuf, scratchBuf, heapBuf
      ensures Valid() && (rc == 0 || rc == -1) && (rc == 0 <==> failures == old(failures))
      ensures heapBuf == old(heapBuf) || fresh(heapBuf)
      ensures headerBuf[..] == old(headerBuf[..]) && scratchBuf[..] == old(scratchBuf[..])
      ensures request == old(request) && commits == old(commits)
      ensures rc == 0 ==>
        var queued := old(pipe) + data;
        replies == old(replies) + Message(queued[..|data|]) && pipe == queued[|data|..]
      ensures rc == 0 && old(pipe) == [] && data != [] ==> Replied(old(View()), data)
    {
      var got := GetSqe();
      if !got {
        return -1;
      }
      heapBuf := new byte[|data|](i requires 0 <= i < |data| => data[i]);
      assert heapBuf[..] == data && heapBuf[..][..|data|] == data;
      assert [] + data == data && data[|data|..] == [];
      ghost var sent;
      rc, sent := WriteAndSplice(HeapBuf, |data|);
    }

    method WriteAndSplice(buf: Buf, n: nat) returns (rc: int, ghost sent: seq<byte>)
      requires Valid()
      modifies this`pipe, this`replies, this`request, this`commits, this`failures, headerBuf, scratchBuf, heapBuf
      ensures Valid() && (rc == 0 || rc == -1) && (rc == 0 <==> failures == old(failures))
      ensures View() == old(View()).(pipe := pipe, replies := replies)
      ensures rc == 0 ==>
        && Begins(BufOf(old(View()), buf), sent, n)
        && replies == old(replies) + Message((old(pipe) + sent)[..n]) && pipe == (old(pipe) + sent)[n..]
    {
      ghost var s := View();
      var e1, e2 := Sqe(WritePipe(buf, n), Soft), Sqe(PipeToFuse(n), NoLink);
      assert [e1, e2] == [e1] + [e2];
      var rcs, outs := Complete([e1, e2]);
      UnrollChain(s, e1, [e2], outs);
      if !Severs(e1, outs[0].res) {
        SingleOp(Exec(s, e1.op, outs[0]), e2, outs[1..]);
      }
      if rcs[0] != n || rcs[1] != n {
        return -1, [];
      }
      rc, sent := 0, Written(BufOf(s, buf), outs[0].junk, n);
    }

    /** The attributes of the root directory in the record at offset at. */
    method PutRootAttr(at: nat)
      requires Valid() && at + ATTR_SIZE <= SCRATCH_BUF_SIZE
      modifies scratchBuf
      ensures scratchBuf[..] == Patch(old(scratchBuf[..]), at, RootAttr())
    {
      ZeroFields();
      Poke(at, Zeros(88));
      Poke(at + 60, Put32(DIR_MODE));
      Poke(at, Put64(1));
      TwoFields(old(scratchBuf[..]), at, Put64(1), Put32(DIR_MODE));
    }

    /** The attributes of the volume in the record at offset at. */
    method PutVolumeAttr(at: nat)
      requires Valid() && at + ATTR_SIZE <= SCRATCH_BUF_SIZE
      modifies scratchBuf
      ensures scratchBuf[..] == Patch(old(scratchBuf[..]), at, VolumeAttr(server))
    {
      PutFields(at, Put64(3), Put64(server.fsize), Put64(RoundUp(server.fsize, 512)),
                Put32(FILE_MODE), Put32(server.pageSize));
    }

    method PutFields(at: nat, ino: seq<byte>, size: seq<byte>, blocks: seq<byte>, mode: seq<byte>, blksize: seq<byte>)
      requires Valid() && at + ATTR_SIZE <= SCRATCH_BUF_SIZE
      requires |ino| == 8 && |size| == 8 && |blocks| == 8 && |mode| == 4 && |blksize| == 4
      modifies scratchBuf
      ensures scratchBuf[..] == Patch(old(scratchBuf[..]), at,
        ino + size + blocks + Zeros(36) + mode + Zeros(16) + blksize + Zeros(4))
    {
      Poke(at, Zeros(88));
      Poke(at + 60, mode);
      Poke(at, ino);
      Poke(at + 8, size);
      Poke(at + 16, blocks);
      Poke(at + 80, blksize);
      AttrInFields(old(scratchBuf[..]), at, ino, size, blocks, mode, blksize);
    }

    /** A reply that is only a header. */
    method ReplyHeader(error: int) returns (rc: int)
      requires Valid()
      modifies this`pipe, this`replies, this`request, this`commits, this`failures, headerBuf, scratchBuf, heapBuf
      ensures Valid() && (rc == 0 || rc == -1) && (rc == 0 <==> failures == old(failures))
      ensures request == old(request) && commits == old(commits)
      ensures rc == 0 ==>
        var queued := old(pipe) + OutHeader(16, error, Unique(old(headerBuf[..])));
        replies == old(replies) + [queued[..16]] && pipe == queued[16..]
      ensures rc == 0 && old(pipe) == [] ==>
        Replied(old(View()), OutHeader(16, error, Unique(old(headerBuf[..]))))
    {
      ghost var msg := OutHeader(16, error, Unique(headerBuf[..]));
      PutOutHeader(16, error, Unique(headerBuf[..]));
      FramedReply(16, error, Unique(headerBuf[..]), []);
      rc := SendScratch(msg);
    }

    /** Send the reply that lies at the start of the scratch buffer. */
    method SendScratch(ghost msg: seq<byte>) returns (rc: int)
      requires Valid() && Framed(msg) && |msg| <= SCRATCH_BUF_SIZE && scratchBuf[..|msg|] == msg
      modifies this`pipe, this`replies, this`request, this`commits, this`failures, headerBuf, scratchBuf, heapBuf
      ensures Valid() && (rc == 0 || rc == -1) && (rc == 0 <==> failures == old(failures))
      ensures headerBuf[..] == old(headerBuf[..]) && scratchBuf[..] == old(scratchBuf[..])
      ensures request == old(request) && commits == old(commits)
      ensures rc == 0 ==>
        var queued := old(pipe) + msg;
        replies == old(replies) + [queued[..|msg|]] && pipe == queued[|msg|..]
      ensures rc == 0 && old(pipe) == [] ==> Replied(old(View()), msg)
    {
      assert scratchBuf[..][0..4] == msg[0..4];
      ghost var sent;
      rc, sent := SendReply();
      assert [] + msg == msg && msg[..|msg|] == msg && msg[|msg|..] == [];
    }
  }

  lemma HeaderInThree(s: seq<byte>, len: seq<byte>, error: seq<byte>, unique: seq<byte>)
    requires |s| >= 16 && |len| == 4 && |error| == 4 && |unique| == 8
    ensures Patch(Patch(Patch(s, 4, error), 0, len), 8, unique) == Patch(s, 0, len + error + unique)
  {
  }

  /** Zeroing an attribute record and then setting five of its fields. */
  lemma AttrInFields(s: seq<byte>, at: nat, ino: seq<byte>, size: seq<byte>, blocks: seq<byte>,
                     mode: seq<byte>, blksize: seq<byte>)
    requires at + 88 <= |s|
    requires |ino| == 8 && |size| == 8 && |blocks| == 8 && |mode| == 4 && |blksize| == 4
    ensures
      var s1 := Patch(Patch(Patch(s, at, Zeros(88)), at + 60, mode), at, ino);
      Patch(Patch(Patch(s1, at + 8, size), at + 16, blocks), at + 80, blksize)
      == Patch(s, at, ino + size + blocks + Zeros(36) + mode + Zeros(16) + blksize + Zeros(4))
  {
    var w := Zeros(88);
    PatchInside(s, at, w, 60, mode);
    var w1 := Patch(w, 60, mode);
    PatchInside(s, at, w1, 0, ino);
    var w2 := Patch(w1, 0, ino);
    PatchInside(s, at, w2, 8, size);
    var w3 := Patch(w2, 8, size);
    PatchInside(s, at, w3, 16, blocks);
    var w4 := Patch(w3, 16, blocks);
    PatchInside(s, at, w4, 80, blksize);
    AttrWindow(ino, size, blocks, mode, blksize);
  }

  lemma AttrWindow(ino: seq<byte>, size: seq<byte>, blocks: seq<byte>, mode: seq<byte>, blksize: seq<byte>)
    requires |ino| == 8 && |size| == 8 && |blocks| == 8 && |mode| == 4 && |blksize| == 4
    ensures
      Patch(Patch(Patch(Patch(Patch(Zeros(88), 60, mode), 0, ino), 8, size), 16, blocks), 80, blksize)
      == ino + size + blocks + Zeros(36) + mode + Zeros(16) + blksize + Zeros(4)
  {
    var w1 := Patch(Zeros(88), 60, mode);
    assert w1 == Zeros(60) + mode + Zeros(24);
    var w2 := Patch(w1, 0, ino);
    assert w2 == ino + Zeros(52) + mode + Zeros(24);
    var w3 := Patch(w2, 8, size);
    assert w3 == ino + size + Zeros(44) + mode + Zeros(24);
    var w4 := Patch(w3, 16, blocks);
    assert w4 == ino + size + blocks + Zeros(36) + mode + Zeros(24);
  }

  lemma TwoFields(s: seq<byte>, at: nat, ino: seq<byte>, mode: seq<byte>)
    requires at + 88 <= |s| && |ino| == 8 && |mode| == 4
    ensures
      Patch(Patch(Patch(s, at, Zeros(88)), at + 60, mode), at, ino)
      == Patch(s, at, ino + Zeros(8) + Zeros(8) + Zeros(36) + mode + Zeros(16) + Zeros(4) + Zeros(4))
  {
    var w := Zeros(88);
    PatchInside(s, at, w, 60, mode);
    var w1 := Patch(w, 60, mode);
    assert w1 == Zeros(60) + mode + Zeros(24);
    PatchInside(s, at, w1, 0, ino);
    assert Patch(w1, 0, ino) == ino + Zeros(52) + mode + Zeros(24);
    assert ino + Zeros(52) + mode + Zeros(24)
        == ino + Zeros(8) + Zeros(8) + Zeros(36) + mode + Zeros(16) + Zeros(4) + Zeros(4);
  }
}
