/** READ and WRITE: chains that move file data between the backing file, the pipe and the fuse fd. */
module FileRequests {
  import opened Bytes
  import opened FuseKernel
  import opened KernelOps
  import opened RequestEngine
  import opened Handlers

  // ------------------------------------------------------------------ READ

  /** The size handle_read goes on with: cut at the end of the file, in 64-bit and then 32-bit arithmetic. */
  function ClampedSize(off: nat, size: nat, fsize: nat): nat {
    if Wrap64(off + size) > fsize then Wrap32(Wrap64(fsize - off)) else size
  }

  /** What a read at off may return of a file of fsize bytes. */
  function ReadableSize(off: nat, size: nat, fsize: nat): nat {
    if off >= fsize then 0 else if size <= fsize - off then size else fsize - off
  }

  /**
    The cut is right exactly when the offset is inside the file, or the sum does not wrap below the
    file size and the distance behind the end happens to be a multiple of 2^32.
   */
  lemma ClampIsRight(off: nat, size: nat, fsize: nat)
    requires off < TWO64 && size < TWO32 && fsize < TWO64 / 2
    ensures ClampedSize(off, size, fsize) == ReadableSize(off, size, fsize) <==>
            off <= fsize || (Wrap64(off + size) > fsize && (off - fsize) % TWO32 == 0)
  {
    if off > fsize {
      var d := off - fsize;
      Truncate(fsize - off);
      assert Wrap32(-d) == 0 <==> d % TWO32 == 0;
    } else {
      Truncate(fsize - off);
    }
  }

  /** Truncating a 64-bit value to 32 bits is truncating the number. */
  lemma Truncate(x: int)
    ensures Wrap32(Wrap64(x)) == Wrap32(x)
  {
    var q := x / TWO64;
    var r := Wrap64(x);
    assert x == TWO32 * (TWO32 * q + r / TWO32) + r % TWO32;
    DivModUnique(x, TWO32, TWO32 * q + r / TWO32, r % TWO32);
  }

  /** An offset behind the end of the file for which handle_read goes on with 2^32 - 1 bytes. */
  lemma ClampWraps()
    ensures ClampedSize(101, 1, 100) == TWO32 - 1 && ReadableSize(101, 1, 100) == 0
  {
    Truncate(100 - 101);
  }

  function ReadChain(off: nat, size: nat): seq<Sqe> {
    [Sqe(WritePipe(ScratchBuf, 16), Soft), Sqe(FileToPipe(off, size), Soft),
     Sqe(PipeToFuse(Wrap32(16 + size)), NoLink)]
  }

  /** c is a read of size bytes at off. */
  ghost predicate ReadCommit(c: Commit, off: nat, size: nat) {
    && !c.write && c.off == off && |c.data| == size && c.after == c.before
    && (size > 0 ==> off + size <= |c.before| && c.data == c.before[off..off + size])
  }

  /** Between s and t one read of the file happened, and its data went out behind the header, nothing else. */
  ghost predicate ReadServed(s: Slot, t: Slot, unique: nat, off: nat, size: nat) {
    && |t.commits| == |s.commits| + 1 && t.commits[..|s.commits|] == s.commits
    && ReadCommit(t.commits[|s.commits|], off, size)
    && t.replies == s.replies + [OutHeader(16 + size, 0, unique) + t.commits[|s.commits|].data]
    && t.pipe == []
  }

  /**
    No operation moves more than its length, so results that are not too small are exact; they are so
    if and only if no operation of the chain failed.
   */
  lemma {:induction false} ReadResults(s: Slot, a: Sqe, b: Sqe, c: Sqe, outs: seq<Outcome>)
    requires PossibleChain(s, [a, b, c], outs)
    requires a.op.WritePipe? && b.op.FileToPipe? && c.op.PipeToFuse? && a.link == b.link == Soft
    ensures var rcs := ExecChain(s, [a, b, c], outs).1;
      && (rcs == [a.op.len, b.op.len, c.op.len] <==> Failures([a, b, c], outs) == 0)
      && (rcs[0] >= a.op.len && rcs[1] >= b.op.len && rcs[2] >= c.op.len <==> rcs == [a.op.len, b.op.len, c.op.len])
  {
    var rcs := ExecChain(s, [a, b, c], outs).1;
    assert [a, b, c] == [a] + [b, c] && [b, c] == [b] + [c];
    UnrollChain(s, a, [b, c], outs);
    assert rcs[0] == outs[0].res;
    if !Severs(a, outs[0].res) {
      var s1 := Exec(s, a.op, outs[0]);
      UnrollChain(s1, b, [c], outs[1..]);
      assert rcs[1] == outs[1].res;
      if !Severs(b, outs[1].res) {
        SingleOp(Exec(s1, b.op, outs[1]), c, outs[1..][1..]);
        assert rcs[2] == outs[2].res;
      }
    }
  }

  /** A read chain whose three operations moved exactly their lengths. */
  lemma ReadChainMoves(s: Slot, h: seq<byte>, off: nat, size: nat, a: Outcome, b: Outcome, c: Outcome)
    requires |h| == 16 && s.pipe == [] && |s.scratch| >= 16 && s.scratch[..16] == h
    requires a.res == 16 && b.res == size && c.res == 16 + size
    requires Possible(s, WritePipe(ScratchBuf, 16), a)
    requires var s1 := Exec(s, WritePipe(ScratchBuf, 16), a);
      && Possible(s1, FileToPipe(off, size), b)
      && Possible(Exec(s1, FileToPipe(off, size), b), PipeToFuse(16 + size), c)
    ensures var s1 := Exec(s, WritePipe(ScratchBuf, 16), a);
      var t := Exec(Exec(s1, FileToPipe(off, size), b), PipeToFuse(16 + size), c);
      var data := if size > 0 then b.file[off..off + size] else [];
      t == s.(pipe := [], replies := s.replies + [h + data],
              commits := s.commits + [Commit(false, off, data, b.file, b.file)])
  {
    var data := if size > 0 then b.file[off..off + size] else [];
    var s1 := Exec(s, WritePipe(ScratchBuf, 16), a);
    assert s1.pipe == h;
    var s2 := Exec(s1, FileToPipe(off, size), b);
    var msg := h + data;
    assert s2.pipe == msg && msg[..|msg|] == msg && msg[|msg|..] == [];
  }

  /** A read chain that passes handle_read's checks served the read. */
  lemma {:induction false} ReadChainServes(s: Slot, unique: nat, off: nat, size: nat, outs: seq<Outcome>)
    requires PossibleChain(s, ReadChain(off, size), outs)
    requires s.pipe == [] && |s.scratch| >= 16 && s.scratch[..16] == OutHeader(16 + size, 0, unique)
    requires var rcs := ExecChain(s, ReadChain(off, size), outs).1;
      rcs[0] >= 16 && rcs[1] >= 0 && rcs[1] >= size && rcs[2] >= 0 && rcs[2] >= Wrap32(16 + size)
    ensures ReadServed(s, ExecChain(s, ReadChain(off, size), outs).0, unique, off, size)
    ensures var t := ExecChain(s, ReadChain(off, size), outs).0;
      t == s.(pipe := t.pipe, replies := t.replies, commits := t.commits)
  {
    var a, b := Sqe(WritePipe(ScratchBuf, 16), Soft), Sqe(FileToPipe(off, size), Soft);
    var c := Sqe(PipeToFuse(Wrap32(16 + size)), NoLink);
    assert ReadChain(off, size) == [a, b, c];
    assert ExecChain(s, [a, b, c], outs).1 == [a.op.len, b.op.len, c.op.len] by {
      ReadResults(s, a, b, c, outs);
    }
    ThreeOps(s, a, b, c, outs);
    assert size < 0x8000_0000 && Wrap32(16 + size) == 16 + size;
    ReadChainMoves(s, OutHeader(16 + size, 0, unique), off, size, outs[0], outs[1], outs[2]);
  }

  method HandleRead(io: FuseIo, p: Ptr) returns (rc: int)
    requires HasBody(io, p, READ_IN_SIZE) && (p.buf == HeaderBuf ==> p.at == 40)
    requires io.pipe == []
    modifies io, io.headerBuf, io.scratchBuf, io.heapBuf
    ensures rc == 0 || rc == -1
    ensures rc == 0 <==> io.failures == old(io.failures)
    ensures io.Valid() && io.heapBuf == old(io.heapBuf)
    ensures io.request == old(io.request)
    ensures rc == 0 && NodeId(old(io.headerBuf[..])) == 3 ==>
      var body := old(Body(io, p, READ_IN_SIZE));
      ReadServed(old(io.View()), io.View(), Unique(old(io.headerBuf[..])),
                 Get64(body, 8), ClampedSize(Get64(body, 8), Get32(body, 16), io.server.fsize))
    // On another node the length field is whatever the scratch buffer held: the reply is the
    // intended one exactly if that was 16.
    ensures rc == 0 && NodeId(old(io.headerBuf[..])) != 3 ==>
      NotFoundSent(old(io.View()), io.View(), Unique(old(io.headerBuf[..])), old(io.scratchBuf[0..4]))
    ensures rc == 0 && NodeId(old(io.headerBuf[..])) != 3 ==>
      var intended := OutHeader(16, -ENOENT, Unique(old(io.headerBuf[..])));
      io.pipe == [] && (io.replies == old(io.replies) + [intended] <==> Get32(old(io.scratchBuf[..]), 0) == 16)
  {
    var unique := Unique(io.headerBuf[..]);
    if NodeId(io.headerBuf[..]) != 3 {
      rc := ReadNotFound(io, unique);
      assert rc == 0 ==> NotFoundSent(old(io.View()), io.View(), unique, old(io.scratchBuf[0..4]));
      return;
    }
    rc := ReadFile(io, p, unique);
  }

  /** handle_read behind its check of the node. */
  method ReadFile(io: FuseIo, p: Ptr, unique: nat) returns (rc: int)
    requires HasBody(io, p, READ_IN_SIZE) && io.pipe == []
    modifies io, io.headerBuf, io.scratchBuf, io.heapBuf
    ensures rc == 0 || rc == -1
    ensures rc == 0 <==> io.failures == old(io.failures)
    ensures io.Valid() && io.heapBuf == old(io.heapBuf)
    ensures io.request == old(io.request)
    ensures rc == 0 ==>
      var body := old(Body(io, p, READ_IN_SIZE));
      ReadServed(old(io.View()), io.View(), unique,
                 Get64(body, 8), ClampedSize(Get64(body, 8), Get32(body, 16), io.server.fsize))
  {
    var off, size := ClampInPlace(io, p);
    io.PutOutHeader(16 + size, 0, unique);
    rc := RunReadChain(io, unique, off, size);
  }

  /** The size field of the body is overwritten with the cut size, then both fields are read again. */
  method ClampInPlace(io: FuseIo, p: Ptr) returns (off: nat, size: nat)
    requires HasBody(io, p, READ_IN_SIZE)
    modifies io.headerBuf, io.scratchBuf, io.heapBuf
    ensures off == Get64(old(Body(io, p, READ_IN_SIZE)), 8) && off < TWO64
    ensures size == ClampedSize(off, Get32(old(Body(io, p, READ_IN_SIZE)), 16), io.server.fsize) < TWO32
  {
    SubSlice(BufOf(io.View(), p.buf), p.at, READ_IN_SIZE, 8, 16);
    SubSlice(BufOf(io.View(), p.buf), p.at, READ_IN_SIZE, 16, 20);
    off := Get64(BufOf(io.View(), p.buf), p.at + 8);
    size := Get32(BufOf(io.View(), p.buf), p.at + 16);
    if Wrap64(off + size) > io.server.fsize {
      var cut := Wrap32(Wrap64(io.server.fsize - off));
      off, size := StoreSize(io, p, cut);
    }
  }

  /** read_in->size := cut; the offset field beside it is not touched. */
  method StoreSize(io: FuseIo, p: Ptr, cut: nat) returns (off: nat, size: nat)
    requires HasBody(io, p, READ_IN_SIZE) && cut < TWO32
    modifies io.headerBuf, io.scratchBuf, io.heapBuf
    ensures off == Get64(BufOf(old(io.View()), p.buf), p.at + 8) && size == cut
  {
    ghost var b := BufOf(io.View(), p.buf);
    io.PokeAt(p.buf, p.at + 16, Put32(cut));
    SizeField(b, p.at, Put32(cut));
    off := Get64(BufOf(io.View(), p.buf), p.at + 8);
    size := Get32(BufOf(io.View(), p.buf), p.at + 16);
  }

  lemma SizeField(b: seq<byte>, at: nat, v: seq<byte>)
    requires at + READ_IN_SIZE <= |b| && |v| == 4
    ensures Patch(b, at + 16, v)[at + 8..at + 16] == b[at + 8..at + 16]
    ensures Patch(b, at + 16, v)[at + 16..at + 20] == v
  {
    PatchFacts(b, at + 16, v);
  }

  lemma PatchStart(s: seq<byte>, h: seq<byte>)
    requires |h| <= |s|
    ensures Patch(s, 0, h)[..|h|] == h
  {
  }

  /** The header for size bytes lies in the scratch buffer; queue the chain and check its results. */
  method RunReadChain(io: FuseIo, unique: nat, off: nat, size: nat) returns (rc: int)
    requires io.Valid() && io.pipe == [] && size < TWO32
    requires exists s: seq<byte> ::
      |s| == SCRATCH_BUF_SIZE && io.scratchBuf[..] == Patch(s, 0, OutHeader(16 + size, 0, unique))
    modifies io, io.headerBuf, io.scratchBuf, io.heapBuf
    ensures rc == 0 || rc == -1
    ensures rc == 0 <==> io.failures == old(io.failures)
    ensures io.Valid() && io.heapBuf == old(io.heapBuf)
    ensures io.request == old(io.request)
    ensures rc == 0 ==> ReadServed(old(io.View()), io.View(), unique, off, size)
  {
    ghost var h := OutHeader(16 + size, 0, unique);
    ghost var s: seq<byte> :| |s| == SCRATCH_BUF_SIZE && io.scratchBuf[..] == Patch(s, 0, h);
    PatchStart(s, h);
    assert io.scratchBuf[..][0..4] == Put32(16 + size) by {
      FirstFour(Put32(16 + size), Put32(0), Put64(unique), s[16..]);
      assert Patch(s, 0, h) == h + s[16..];
    }
    var got := io.GetSqe();
    if !got {
      return -1;
    }
    var len := Get32(io.scratchBuf[..], 0);
    ghost var v := io.View();
    var chain := [Sqe(WritePipe(ScratchBuf, 16), Soft), Sqe(FileToPipe(off, size), Soft), Sqe(PipeToFuse(len), NoLink)];
    assert chain == ReadChain(off, size);
    var rcs, outs := io.Complete(chain);
    KeepsRequest(v, chain, outs);
    ReadResults(v, chain[0], chain[1], chain[2], outs);
    assert chain == [chain[0], chain[1], chain[2]];
    if rcs[0] < 0 || rcs[1] < 0 || rcs[2] < 0 {
      return -1;
    }
    if rcs[0] < 16 || rcs[1] < size || rcs[2] < len {
      return -1;
    }
    ReadChainServes(v, unique, off, size, outs);
    rc := 0;
  }

  /** Only a splice from the fuse fd delivers a request. */
  lemma {:induction false} KeepsRequest(s: Slot, chain: seq<Sqe>, outs: seq<Outcome>)
    requires PossibleChain(s, chain, outs)
    requires forall e :: e in chain ==> !e.op.FuseToPipe?
    ensures ExecChain(s, chain, outs).0.request == s.request
    decreases |chain|
  {
    if chain != [] && !Severs(chain[0], outs[0].res) {
      KeepsRequest(Exec(s, chain[0].op, outs[0]), chain[1..], outs[1..]);
    }
  }

  /**
    Between s and t a message was sent as long as the four stale bytes say, none if they say 0; it has
    the error and the unique in their places as far as it goes.
   */
  ghost predicate NotFoundSent(s: Slot, t: Slot, unique: nat, stale: seq<byte>)
    requires |stale| == 4
  {
    && t.pipe == [] && t.commits == s.commits
    && var n, h := Get32(stale, 0), stale + Put32(-ENOENT) + Put64(unique);
    if n == 0 then t.replies == s.replies
    else
      && |t.replies| == |s.replies| + 1 && t.replies[..|s.replies|] == s.replies
      && var msg := t.replies[|s.replies|];
      |msg| == n && if n <= 16 then msg == h[..n] else msg[..16] == h
  }

  /** Which is the intended message if and only if the stale length was 16. */
  lemma NotFoundRight(s: Slot, t: Slot, unique: nat, stale: seq<byte>)
    requires |stale| == 4 && NotFoundSent(s, t, unique, stale)
    ensures t.replies == s.replies + [OutHeader(16, -ENOENT, unique)] <==> Get32(stale, 0) == 16
  {
    var right := OutHeader(16, -ENOENT, unique);
    if Get32(stale, 0) == 16 {
      EncodeDecode(stale[0..4]);
      assert stale[0..4] == stale;
      assert t.replies[|s.replies|] == right;
      assert t.replies == t.replies[..|s.replies|] + [right];
    } else if Get32(stale, 0) > 0 {
      assert |t.replies[|s.replies|]| != |right|;
    }
  }

  /** The reply to a READ of another node: the length field is not stored. */
  method ReadNotFound(io: FuseIo, unique: nat) returns (rc: int)
    requires io.Valid() && io.pipe == []
    modifies io, io.headerBuf, io.scratchBuf, io.heapBuf
    ensures rc == 0 || rc == -1
    ensures rc == 0 <==> io.failures == old(io.failures)
    ensures io.Valid() && io.heapBuf == old(io.heapBuf)
    ensures io.request == old(io.request)
    ensures rc == 0 ==> NotFoundSent(old(io.View()), io.View(), unique, old(io.scratchBuf[0..4]))
    ensures rc == 0 ==>
      (io.replies == old(io.replies) + [OutHeader(16, -ENOENT, unique)] <==> Get32(old(io.scratchBuf[..]), 0) == 16)
  {
    ghost var before, s := io.View(), io.scratchBuf[..];
    io.Poke(4, Put32(0));
    io.Poke(8, Put64(unique));
    io.Poke(4, Put32(-ENOENT));
    StaleLength(s, Put32(0), Put64(unique), Put32(-ENOENT));
    ghost var sent, scratch := [], io.scratchBuf[..];
    rc, sent := io.SendReply();
    if rc == 0 {
      StaleMessage(scratch, sent, Get32(s, 0), s[0..4] + Put32(-ENOENT) + Put64(unique));
      assert [] + sent == sent;
      assert old(io.scratchBuf[0..4]) == s[0..4] && s[0..4][0..4] == s[0..4];
      assert NotFoundSent(before, io.View(), unique, s[0..4]);
      NotFoundRight(before, io.View(), unique, s[0..4]);
    }
  }

  /** The first bytes of a message from a buffer that begins with h. */
  lemma StaleMessage(scratch: seq<byte>, sent: seq<byte>, n: nat, h: seq<byte>)
    requires Begins(scratch, sent, n) && |h| == 16 <= |scratch| && scratch[..16] == h
    ensures sent[..n] == sent && sent[n..] == []
    ensures if n <= 16 then sent == h[..n] else sent[..16] == h
  {
    if n <= 16 {
      assert sent == scratch[..n] == scratch[..16][..n];
    } else {
      assert sent[..16] == scratch[..16];
    }
  }

  lemma StaleLength(s: seq<byte>, ok: seq<byte>, unique: seq<byte>, error: seq<byte>)
    requires |s| >= 16 && |ok| == 4 && |unique| == 8 && |error| == 4
    ensures
      var t := Patch(Patch(Patch(s, 4, ok), 8, unique), 4, error);
      t[0..4] == s[0..4] && t[..16] == s[0..4] + error + unique
  {
    PatchFacts(s, 4, ok);
    var a := Patch(s, 4, ok);
    PatchFacts(a, 8, unique);
    PatchFacts(Patch(a, 8, unique), 4, error);
  }

  // ----------------------------------------------------------------- WRITE

  function WriteChain(off: nat, size: nat): seq<Sqe> {
    [Sqe(PipeToFile(off, size), Soft), Sqe(WritePipe(ScratchBuf, 24), Soft), Sqe(PipeToFuse(24), NoLink)]
  }

  /** Between s and t the payload in the pipe was written to the file at off, all of it, and confirmed. */
  ghost predicate WriteServed(s: Slot, t: Slot, unique: nat, off: nat, size: nat) {
    && |s.pipe| == size && t.pipe == []
    && (exists before: seq<byte> ::
         t.commits == s.commits + [Commit(true, off, s.pipe, before, Overwrite(before, off, s.pipe))])
    && t.replies == s.replies + [WriteReply(unique, size)]
  }

  /** Between s and t a message was sent while the payload was still queued ahead of it in the pipe. */
  ghost predicate SentBehindPayload(s: Slot, t: Slot, payload: seq<byte>, msg: seq<byte>) {
    && t.replies == s.replies + [(payload + msg)[..|msg|]]
    && t.pipe == (payload + msg)[|msg|..]
  }

  /** n bytes reached the file, the others lie ahead of the reply that says so. */
  ghost predicate ShortWrite(s: Slot, t: Slot, unique: nat, off: nat, n: nat)
    requires n < |s.pipe|
  {
    && SentBehindPayload(s, t, s.pipe[n..], WriteReply(unique, n))
    && exists before: seq<byte> ::
         t.commits == s.commits + [Commit(true, off, s.pipe[..n], before, Overwrite(before, off, s.pipe[..n]))]
  }

  /**
    What a WRITE which ends well has done, by the guards of handle_write and `moved`, the kernel's
    answer to the payload splice: for another node or a wrong length no splice is submitted.
   */
  ghost predicate WriteAnswered(s: Slot, t: Slot, unique: nat, node: nat, off: nat, size: nat, moved: int) {
    if node != 3 then SentBehindPayload(s, t, s.pipe, OutHeader(16, -ENOENT, unique)) && t.commits == s.commits
    else if |s.pipe| != size then
      SentBehindPayload(s, t, s.pipe, OutHeader(16, -EINVAL, unique)) && t.commits == s.commits
    else if moved < 0 then
      SentBehindPayload(s, t, s.pipe, OutHeader(16, moved, unique)) && t.commits == s.commits
    else if moved < size then ShortWrite(s, t, unique, off, moved)
    else moved == size && WriteServed(s, t, unique, off, size)
  }

  /** The payload splice moved `moved` bytes into the file, or failed, or was not submitted. */
  ghost predicate Spliced(s: Slot, t: Slot, off: nat, moved: int) {
    if moved < 0 then t.commits == s.commits
    else
      && moved <= |s.pipe|
      && exists before: seq<byte> ::
           t.commits == s.commits + [Commit(true, off, s.pipe[..moved], before, Overwrite(before, off, s.pipe[..moved]))]
  }

  /**
    After a WRITE that ends well the pipe is empty if and only if there was no payload, or it was for
    node 3, of the right length, and the kernel took it whole. Then the write was served.
   */
  lemma WriteDrains(s: Slot, t: Slot, unique: nat, node: nat, off: nat, size: nat, moved: int)
    requires WriteAnswered(s, t, unique, node, off, size, moved)
    ensures t.pipe == [] <==> s.pipe == [] || (node == 3 && |s.pipe| == size && moved == size)
    ensures node == 3 && |s.pipe| == size && moved == size ==> WriteServed(s, t, unique, off, size)
  {
  }

  /** The reply behind a full payload splice. */
  ghost predicate Confirmed(s: Slot, t: Slot, n: nat)
    requires n <= |s.pipe| && |s.scratch| >= 24
  {
    var queued := s.pipe[n..] + s.scratch[..24];
    t.replies == s.replies + [queued[..24]] && t.pipe == queued[24..]
  }

  /**
    What a write chain leaves, by the result of its first operation: nothing happened; part of the
    payload was written and the reply cancelled; or all of it was, and if the other two operations
    move their full length the reply went out.
   */
  lemma {:induction false} WriteChainRuns(s: Slot, off: nat, size: nat, outs: seq<Outcome>)
    requires PossibleChain(s, WriteChain(off, size), outs)
    ensures var r := ExecChain(s, WriteChain(off, size), outs);
      var n := r.1[0];
      && n <= size && n <= |s.pipe|
      && (n < 0 ==> r.0 == s)
      && Spliced(s, r.0, off, n)
      && (0 <= n < size ==>
            r.0 == s.(pipe := s.pipe[n..], commits := r.0.commits) && r.1[1] == r.1[2] == -ECANCELED)
      && (n == size && r.1[1] == r.1[2] == 24 && |s.scratch| >= 24 ==> Confirmed(s, r.0, n))
      && (Failures(WriteChain(off, size), outs) == 0 <==> n < size || r.1[1] == r.1[2] == 24)
  {
    var a, b := Sqe(PipeToFile(off, size), Soft), Sqe(WritePipe(ScratchBuf, 24), Soft);
    var c := Sqe(PipeToFuse(24), NoLink);
    assert WriteChain(off, size) == [a] + [b, c] && [b, c] == [b] + [c];
    UnrollChain(s, a, [b, c], outs);
    var o := outs[0];
    var s1 := Exec(s, a.op, o);
    if o.res >= 0 {
      assert s1.commits == s.commits + [Commit(true, off, s.pipe[..o.res], o.file, Overwrite(o.file, off, s.pipe[..o.res]))];
    }
    if o.res == size {
      UnrollChain(s1, b, [c], outs[1..]);
      var s2 := Exec(s1, b.op, outs[1]);
      if !Severs(b, outs[1].res) {
        SingleOp(s2, c, outs[1..][1..]);
      }
      assert ExecChain(s, WriteChain(off, size), outs).0.commits == s1.commits;
    }
  }

  /** A write chain that passes handle_write's last check served the write. */
  lemma {:induction false} WriteChainServes(s: Slot, unique: nat, off: nat, size: nat, outs: seq<Outcome>)
    requires PossibleChain(s, WriteChain(off, size), outs)
    requires |s.pipe| == size && |s.scratch| >= 24 && s.scratch[..24] == WriteReply(unique, size)
    requires ExecChain(s, WriteChain(off, size), outs).1 == [size, 24, 24]
    ensures WriteServed(s, ExecChain(s, WriteChain(off, size), outs).0, unique, off, size)
  {
    var a, b := Sqe(PipeToFile(off, size), Soft), Sqe(WritePipe(ScratchBuf, 24), Soft);
    var c := Sqe(PipeToFuse(24), NoLink);
    assert WriteChain(off, size) == [a, b, c];
    ThreeOps(s, a, b, c, outs);
    var s1 := Exec(s, a.op, outs[0]);
    var s2 := Exec(s1, b.op, outs[1]);
    assert s.pipe[..size] == s.pipe && s1.pipe == [];
    assert s2.pipe == s.scratch[..24];
    assert s2.pipe[..24] == s2.pipe && s2.pipe[24..] == [];
    assert s1.commits == s.commits + [Commit(true, off, s.pipe, outs[0].file, Overwrite(outs[0].file, off, s.pipe))];
  }

  /**
    The pipe holds the payload of the request; `moved` is the kernel's answer to its splice. A zero
    result leaves the pipe empty exactly if there was no payload, or it was for node 3, of the right
    length, and taken whole; then the write was served. In all other cases, whose four kinds are told
    apart, the reply is a message that begins with payload bytes.
   */
  method HandleWrite(io: FuseIo, p: Ptr) returns (rc: int, ghost moved: int)
    requires HasBody(io, p, WRITE_IN_SIZE) && (p.buf == HeaderBuf ==> p.at == 40)
    requires Len(io.headerBuf[..]) == 80 + |io.pipe|
    modifies io, io.headerBuf, io.scratchBuf, io.heapBuf
    ensures rc == 0 || rc == -1
    ensures rc == 0 <==> io.failures == old(io.failures)
    ensures io.Valid() && io.heapBuf == old(io.heapBuf)
    ensures io.request == old(io.request)
    ensures Spliced(old(io.View()), io.View(), Get64(old(Body(io, p, WRITE_IN_SIZE)), 8), moved)
    ensures rc == 0 ==>
      var h, body := old(io.headerBuf[..]), old(Body(io, p, WRITE_IN_SIZE));
      WriteAnswered(old(io.View()), io.View(), Unique(h), NodeId(h), Get64(body, 8), Get32(body, 16), moved)
    ensures rc == 0 ==>
      var h, size := old(io.headerBuf[..]), Get32(old(Body(io, p, WRITE_IN_SIZE)), 16);
      (io.pipe == [] <==> old(io.pipe) == [] || (NodeId(h) == 3 && |old(io.pipe)| == size && moved == size))
  {
    var unique, node := Unique(io.headerBuf[..]), NodeId(io.headerBuf[..]);
    ghost var s := io.View();
    SubSlice(BufOf(io.View(), p.buf), p.at, WRITE_IN_SIZE, 8, 16);
    SubSlice(BufOf(io.View(), p.buf), p.at, WRITE_IN_SIZE, 16, 20);
    var off := Get64(BufOf(io.View(), p.buf), p.at + 8);
    var size := Get32(BufOf(io.View(), p.buf), p.at + 16);
    rc, moved := CheckAndWrite(io, unique, node, off, size);
    if rc == 0 {
      WriteDrains(s, io.View(), unique, node, off, size, moved);
    }
  }

  /** The two guards of handle_write. */
  method CheckAndWrite(io: FuseIo, unique: nat, node: nat, off: nat, size: nat) returns (rc: int, ghost moved: int)
    requires io.Valid() && Len(io.headerBuf[..]) == 80 + |io.pipe| && unique == Unique(io.headerBuf[..])
    modifies io, io.headerBuf, io.scratchBuf, io.heapBuf
    ensures rc == 0 || rc == -1
    ensures rc == 0 <==> io.failures == old(io.failures)
    ensures io.Valid() && io.heapBuf == old(io.heapBuf)
    ensures io.request == old(io.request)
    ensures Spliced(old(io.View()), io.View(), off, moved)
    ensures rc == 0 ==> WriteAnswered(old(io.View()), io.View(), unique, node, off, size, moved)
  {
    moved := -1;
    if node != 3 {
      rc := io.ReplyHeader(-ENOENT);
    } else if Len(io.headerBuf[..]) != 40 + 40 + size {
      rc := io.ReplyHeader(-EINVAL);
    } else {
      rc, moved := RunWriteChain(io, unique, off, size);
    }
  }

  /** handle_write behind its checks: reply prepared, chain queued, results judged. */
  method RunWriteChain(io: FuseIo, unique: nat, off: nat, size: nat) returns (rc: int, ghost moved: int)
    requires io.Valid() && |io.pipe| == size
    modifies io, io.headerBuf, io.scratchBuf, io.heapBuf
    ensures rc == 0 || rc == -1
    ensures rc == 0 <==> io.failures == old(io.failures)
    ensures io.Valid() && io.heapBuf == old(io.heapBuf)
    ensures io.request == old(io.request)
    ensures Spliced(old(io.View()), io.View(), off, moved)
    ensures rc == 0 ==> WriteAnswered(old(io.View()), io.View(), unique, 3, off, size, moved)
  {
    ghost var scratch, s := io.scratchBuf[..], io.View();
    PutWriteReply(io, unique, size);
    moved := -1;
    var got := io.GetSqe();
    if !got {
      return -1, -1;
    }
    ghost var v := io.View();
    var chain := [Sqe(PipeToFile(off, size), Soft), Sqe(WritePipe(ScratchBuf, 24), Soft), Sqe(PipeToFuse(24), NoLink)];
    assert chain == WriteChain(off, size);
    var rcs, outs := io.Complete(chain);
    KeepsRequest(v, chain, outs);
    WriteChainRuns(v, off, size, outs);
    moved := rcs[0];
    assert Spliced(s, io.View(), off, moved);
    if rcs[0] < 0 {
      rc := ReplyWriteError(io, unique, scratch, size, rcs[0]);
    } else if rcs[0] < size {
      rc := ReplyShortWrite(io, unique, scratch, size, rcs[0]);
      assert rc == 0 ==> ShortWrite(s, io.View(), unique, off, moved);
    } else if rcs[1] < 0 || rcs[2] < 0 || rcs[1] != 24 || rcs[2] != 24 {
      rc := -1;
    } else {
      assert rcs == [size, 24, 24];
      WriteChainServes(v, unique, off, size, outs);
      rc := 0;
    }
  }

  /** The success reply, prepared before the chain is queued. */
  method PutWriteReply(io: FuseIo, unique: nat, size: nat)
    requires io.Valid()
    modifies io.scratchBuf
    ensures io.scratchBuf[..] ==
      Patch(Patch(Patch(old(io.scratchBuf[..]), 0, OutHeader(24, 0, unique)), 16, Put32(size)), 20, Put32(0))
    ensures io.scratchBuf[..][..24] == WriteReply(unique, size)
  {
    ghost var scratch := io.scratchBuf[..];
    io.PutOutHeader(24, 0, unique);
    io.Poke(16, Put32(size));
    io.Poke(20, Put32(0));
    WriteReplyInFields(scratch, Put32(24), Put32(0), Put64(unique), Put32(size), Put32(0));
  }

  /** out_header->error := e, out_header->len := 16, over the success reply that was prepared. */
  method ReplyWriteError(io: FuseIo, unique: nat, ghost s: seq<byte>, ghost size: nat, e: int) returns (rc: int)
    requires io.Valid() && |s| == SCRATCH_BUF_SIZE && e < 0
    requires io.scratchBuf[..] == Patch(Patch(Patch(s, 0, OutHeader(24, 0, unique)), 16, Put32(size)), 20, Put32(0))
    modifies io, io.headerBuf, io.scratchBuf, io.heapBuf
    ensures rc == 0 || rc == -1
    ensures rc == 0 <==> io.failures == old(io.failures)
    ensures io.Valid() && io.heapBuf == old(io.heapBuf) && io.request == old(io.request)
    ensures io.commits == old(io.commits)
    ensures rc == 0 ==> SentBehindPayload(old(io.View()), io.View(), old(io.pipe), OutHeader(16, e, unique))
  {
    io.Poke(4, Put32(e));
    io.Poke(0, Put32(16));
    WriteErrorInFields(s, Put32(24), Put32(0), Put64(unique), Put32(size), Put32(0), Put32(e), Put32(16));
    FramedReply(16, e, unique, []);
    rc := io.SendScratch(OutHeader(16, e, unique));
  }

  /** write_out->size := n, over the success reply that was prepared. */
  method ReplyShortWrite(io: FuseIo, unique: nat, ghost s: seq<byte>, ghost size: nat, n: nat) returns (rc: int)
    requires io.Valid() && |s| == SCRATCH_BUF_SIZE
    requires io.scratchBuf[..] == Patch(Patch(Patch(s, 0, OutHeader(24, 0, unique)), 16, Put32(size)), 20, Put32(0))
    modifies io, io.headerBuf, io.scratchBuf, io.heapBuf
    ensures rc == 0 || rc == -1
    ensures rc == 0 <==> io.failures == old(io.failures)
    ensures io.Valid() && io.heapBuf == old(io.heapBuf)
    ensures io.request == old(io.request) && io.commits == old(io.commits)
    ensures rc == 0 ==> SentBehindPayload(old(io.View()), io.View(), old(io.pipe), WriteReply(unique, n))
  {
    io.Poke(16, Put32(n));
    ShortReplyInFields(s, Put32(24), Put32(0), Put64(unique), Put32(size), Put32(0), Put32(n));
    FramedReply(24, 0, unique, Put32(n) + Put32(0));
    rc := io.SendScratch(WriteReply(unique, n));
  }

  lemma WriteReplyInFields(s: seq<byte>, len: seq<byte>, ok: seq<byte>, unique: seq<byte>, size: seq<byte>, zero: seq<byte>)
    requires |s| >= 24 && |len| == 4 && |ok| == 4 && |unique| == 8 && |size| == 4 && |zero| == 4
    ensures Patch(Patch(Patch(s, 0, len + ok + unique), 16, size), 20, zero)[..24] == len + ok + unique + (size + zero)
  {
  }

  lemma WriteErrorInFields(s: seq<byte>, len: seq<byte>, ok: seq<byte>, unique: seq<byte>, size: seq<byte>,
                           zero: seq<byte>, error: seq<byte>, short: seq<byte>)
    requires |s| >= 24 && |len| == 4 && |ok| == 4 && |unique| == 8 && |size| == 4 && |zero| == 4
    requires |error| == 4 && |short| == 4
    ensures
      var t := Patch(Patch(Patch(s, 0, len + ok + unique), 16, size), 20, zero);
      Patch(Patch(t, 4, error), 0, short)[..16] == short + error + unique
  {
    var t := Patch(Patch(Patch(s, 0, len + ok + unique), 16, size), 20, zero);
    WriteReplyInFields(s, len, ok, unique, size, zero);
    assert t[..16] == len + ok + unique by {
      assert t[..16] == t[..24][..16];
    }
    PatchFacts(t, 4, error);
    PatchFacts(Patch(t, 4, error), 0, short);
    assert forall i :: 8 <= i < 16 ==> t[i] == (len + ok + unique)[i];
  }

  lemma ShortReplyInFields(s: seq<byte>, len: seq<byte>, ok: seq<byte>, unique: seq<byte>, size: seq<byte>,
                           zero: seq<byte>, short: seq<byte>)
    requires |s| >= 24 && |len| == 4 && |ok| == 4 && |unique| == 8 && |size| == 4 && |zero| == 4 && |short| == 4
    ensures
      Patch(Patch(Patch(Patch(s, 0, len + ok + unique), 16, size), 20, zero), 16, short)[..24]
      == len + ok + unique + (short + zero)
  {
    var t := Patch(Patch(Patch(s, 0, len + ok + unique), 16, size), 20, zero);
    WriteReplyInFields(s, len, ok, unique, size, zero);
    PatchFacts(t, 16, short);
    assert forall i :: 0 <= i < 24 ==> t[i] == t[..24][i];
  }
}
