/**
  What the answers mean: which of them depend on the request alone and not on how its bytes came in,
  and that the two file requests are single operations on a plain byte file.
 */
module Replies {
  import opened Bytes
  import opened FuseKernel
  import opened KernelOps
  import opened Handlers
  import opened FileRequests
  import opened Directory
  import opened Dispatch
  import opened Interleaving

  // ------------------------------------------------ fragmentation independence

  /** The messages a request added. */
  function Added(s: Slot, t: Slot): seq<seq<byte>> {
    if |s.replies| <= |t.replies| then t.replies[|s.replies|..] else []
  }

  /** Opcodes whose reply is made of the request and the server alone. */
  predicate Settled(op: nat) {
    op !in {FUSE_GETATTR, FUSE_OPEN, FUSE_OPENDIR, FUSE_READ, FUSE_WRITE}
  }

  lemma SentAdds(s: Slot, t: Slot, msg: seq<byte>)
    requires Sent(s, t, msg)
    ensures Added(s, t) == [msg]
  {
  }

  /** The reply to a settled request. */
  ghost function SettledReply(req: seq<byte>, server: Server): seq<byte>
    requires |req| >= 40 && (Opcode(req) == FUSE_SETATTR ==> |req| == 128) && (Opcode(req) == FUSE_READDIR ==> |req| == 80)
  {
    var b, unique, op := req[40..], Unique(req), Opcode(req);
    if op == FUSE_SETATTR then AttrReply(unique, SetattrNode(NodeId(req), b), server, b[28..32])
    else if op == FUSE_LOOKUP then LookupReply(unique, CString(b), server)
    else if op == FUSE_READDIR then ReaddirReply(unique, Get64(b, 8))
    else if op == FUSE_RELEASE || op == FUSE_RELEASEDIR then OutHeader(16, 0, unique)
    else OutHeader(16, -ENOSYS, unique)
  }

  /**
    The same request served twice, its bytes cut up in any two ways, into buffers that held anything:
    the two replies are the same.
   */
  lemma SameReply(s1: Slot, t1: Slot, c1: Course, s2: Slot, t2: Slot, c2: Course, server: Server)
    requires |s1.scratch| == |s2.scratch| == SCRATCH_BUF_SIZE
    requires Answered(s1, t1, server, c1) && Answered(s2, t2, server, c2) && t1.request == t2.request
    requires Settled(Opcode(t1.request))
    ensures Added(s1, t1) == Added(s2, t2) && |Added(s1, t1)| == 1
  {
    SentAdds(s1, t1, SettledReply(t1.request, server));
    SentAdds(s2, t2, SettledReply(t1.request, server));
  }

  /** Only the replies about nodes 1 and 3 have the field which no handler writes. */
  lemma DummyShows(unique: nat, node: nat, server: Server, d1: seq<byte>, d2: seq<byte>)
    requires |d1| == |d2| == 4
    ensures AttrReply(unique, node, server, d1) == AttrReply(unique, node, server, d2) <==>
            d1 == d2 || node !in {1, 3}
  {
    if node in {1, 3} {
      var attr := if node == 1 then RootAttr() else VolumeAttr(server);
      DummyField(OutHeader(120, 0, unique), Put64(3600), Put32(0), d1, attr);
      DummyField(OutHeader(120, 0, unique), Put64(3600), Put32(0), d2, attr);
    }
  }

  lemma DummyField(h: seq<byte>, valid: seq<byte>, nsec: seq<byte>, dummy: seq<byte>, attr: seq<byte>)
    requires |h| == 16 && |valid| == 8 && |nsec| == 4 && |dummy| == 4
    ensures (h + (valid + nsec + dummy + attr))[28..32] == dummy
  {
  }

  lemma GetattrOf(s: Slot, t: Slot, server: Server, c: Course)
    requires |s.scratch| == SCRATCH_BUF_SIZE && Answered(s, t, server, c) && Opcode(t.request) == FUSE_GETATTR
    ensures |t.request| == 56
    ensures var r := t.request;
      Added(s, t) == [AttrReply(Unique(r), GetattrNode(NodeId(r), r[40..]), server, s.scratch[28..32])]
  {
    var r := t.request;
    SentAdds(s, t, AttrReply(Unique(r), GetattrNode(NodeId(r), r[40..]), server, s.scratch[28..32]));
  }

  /**
    GETATTR served twice: the replies agree if and only if the four stale bytes at offset 28 of the
    two scratch buffers agree or the node is neither of the two that exist.
   */
  lemma SameGetattrReply(s1: Slot, t1: Slot, c1: Course, s2: Slot, t2: Slot, c2: Course, server: Server)
    requires |s1.scratch| == |s2.scratch| == SCRATCH_BUF_SIZE
    requires Answered(s1, t1, server, c1) && Answered(s2, t2, server, c2) && t1.request == t2.request
    requires Opcode(t1.request) == FUSE_GETATTR
    ensures Added(s1, t1) == Added(s2, t2) <==>
            s1.scratch[28..32] == s2.scratch[28..32] || GetattrNode(NodeId(t1.request), t1.request[40..]) !in {1, 3}
  {
    var req := t1.request;
    var unique, node := Unique(req), GetattrNode(NodeId(req), req[40..]);
    GetattrOf(s1, t1, server, c1);
    GetattrOf(s2, t2, server, c2);
    DummyShows(unique, node, server, s1.scratch[28..32], s2.scratch[28..32]);
  }

  /** The file handle and the flags set anyway in the replies to OPEN and OPENDIR. */
  function OpenHandle(op: nat): nat { if op == FUSE_OPEN then 3 else 1 }

  function OpenExtra(op: nat): nat { if op == FUSE_OPEN then OPEN_EXTRA else FOPEN_CACHE_DIR }

  lemma OpenOf(s: Slot, t: Slot, server: Server, c: Course)
    requires |s.scratch| == SCRATCH_BUF_SIZE && Answered(s, t, server, c)
    requires Opcode(t.request) in {FUSE_OPEN, FUSE_OPENDIR}
    ensures |t.request| == 48
    ensures var r, op := t.request, Opcode(t.request);
      Sent(s, t, OpenReply(Unique(r), OpenHandle(op), Or(SeenFlags(r[40..], c.initRead), OpenExtra(op)),
                           s.scratch[28..32]))
  {
  }

  /**
    OPEN and OPENDIR, for the whole task: the reply is the intended one if and only if all of the
    request came with the header, or the number 32 and the flags asked for differ only in bits that
    are set anyway.
   */
  lemma OpenAnsweredRight(s: Slot, t: Slot, server: Server, c: Course)
    requires |s.scratch| == SCRATCH_BUF_SIZE && Answered(s, t, server, c)
    requires Opcode(t.request) in {FUSE_OPEN, FUSE_OPENDIR}
    ensures var op, flags := Opcode(t.request), Get32(t.request[40..], 0);
      var intended := OpenReply(Unique(t.request), OpenHandle(op), Or(flags, OpenExtra(op)), s.scratch[28..32]);
      Added(s, t) == [intended] <==> |t.request| == c.initRead || Or(32, OpenExtra(op)) == Or(flags, OpenExtra(op))
  {
    var req := t.request;
    var op, flags, seen := Opcode(req), Get32(req[40..], 0), SeenFlags(req[40..], c.initRead);
    OpenOf(s, t, server, c);
    assert seen == if |req| == c.initRead then flags else 32;
    OpenSentRight(s, t, Unique(req), OpenHandle(op), seen, flags, OpenExtra(op), s.scratch[28..32]);
    assert seen == flags ==> |req| == c.initRead || Or(32, OpenExtra(op)) == Or(flags, OpenExtra(op));
  }

  /** A reply sent with other flags than those asked for. */
  lemma OpenSentRight(s: Slot, t: Slot, unique: nat, fh: nat, seen: nat, flags: nat, extra: nat, padding: seq<byte>)
    requires |padding| == 4 && seen in {flags, 32} && flags < TWO32 && extra < TWO32
    requires Sent(s, t, OpenReply(unique, fh, Or(seen, extra), padding))
    ensures Added(s, t) == [OpenReply(unique, fh, Or(flags, extra), padding)] <==>
            seen == flags || Or(32, extra) == Or(flags, extra)
  {
    SentAdds(s, t, OpenReply(unique, fh, Or(seen, extra), padding));
    OpenFlagsRight(unique, fh, flags, extra, padding);
  }

  /**
    The reply made with 32 for the flags is the intended one if and only if 32 and the flags differ
    only in bits that are set anyway.
   */
  lemma OpenFlagsRight(unique: nat, fh: nat, flags: nat, extra: nat, padding: seq<byte>)
    requires |padding| == 4 && flags < TWO32 && extra < TWO32
    ensures OpenReply(unique, fh, Or(32, extra), padding) == OpenReply(unique, fh, Or(flags, extra), padding) <==>
            Or(32, extra) == Or(flags, extra)
  {
    var h := OutHeader(32, 0, unique);
    FlagsField(h, Put64(fh), Put32(Or(32, extra)), padding);
    FlagsField(h, Put64(fh), Put32(Or(flags, extra)), padding);
    Pow2Of32();
    OrBelow(32, extra, 32);
    OrBelow(flags, extra, 32);
    PutIsInjective(Or(32, extra), Or(flags, extra));
  }

  lemma FlagsField(h: seq<byte>, fh: seq<byte>, flags: seq<byte>, padding: seq<byte>)
    requires |h| == 16 && |fh| == 8 && |flags| == 4 && |padding| == 4
    ensures (h + (fh + flags + padding))[24..28] == flags
  {
  }

  lemma PutIsInjective(v: nat, w: nat)
    requires v < TWO32 && w < TWO32
    ensures Put32(v) == Put32(w) <==> v == w
  {
    assert Get32(Put32(v), 0) == v && Get32(Put32(w), 0) == w by {
      assert Put32(v)[0..4] == Put32(v) && Put32(w)[0..4] == Put32(w);
    }
  }

  lemma {:induction false} OrNothing(x: nat)
    ensures Or(x, 0) == Or(0, x) == x
  {
    if x > 0 {
      OrNothing(x / 2);
    }
  }

  /** Flags 0, as an ordinary open for reading has, are answered wrongly then. */
  lemma OpenFlagsWrong()
    ensures Or(32, FOPEN_KEEP_CACHE + FOPEN_DIRECT_IO) != Or(0, FOPEN_KEEP_CACHE + FOPEN_DIRECT_IO)
    ensures Or(32, FOPEN_CACHE_DIR) != Or(0, FOPEN_CACHE_DIR)
  {
    OrNothing(8);
    OrNothing(2);
    OrNothing(3);
    assert Or(16, 1) == 17 && Or(32, 3) == 35;
    assert Or(4, 1) == 5 && Or(8, 2) == 10 && Or(16, 4) == 20 && Or(32, 8) == 40;
  }

  // ---------------------------------------------------- the two file requests

  /** A READ of the file was served. */
  lemma FileReadServed(s: Slot, t: Slot, server: Server, c: Course)
    requires |s.scratch| == SCRATCH_BUF_SIZE && Answered(s, t, server, c)
    requires Opcode(t.request) == FUSE_READ && NodeId(t.request) == 3
    ensures |t.request| == 80
    ensures var off := Get64(t.request[40..], 8);
            ReadServed(s, t, Unique(t.request), off, ClampedSize(off, Get32(t.request[40..], 16), server.fsize))
  {
  }

  /**
    A READ of another node, for the whole task: the reply is the intended one if and only if the four
    bytes that happen to lie in the length field say 16. They are the request's own if its body did
    not come with the header in one piece, and else what the scratch buffer held before.
   */
  lemma StrayReadRight(s: Slot, t: Slot, server: Server, c: Course)
    requires |s.scratch| == SCRATCH_BUF_SIZE && Answered(s, t, server, c)
    requires Opcode(t.request) == FUSE_READ && NodeId(t.request) != 3
    ensures |t.request| == 80 && t.pipe == []
    ensures |Added(s, t)| == if (if c.initRead == 80 then Get32(s.scratch, 0) else Get32(t.request, 40)) == 0 then 0 else 1
    ensures Added(s, t) == [OutHeader(16, -ENOENT, Unique(t.request))] <==>
            (if c.initRead == 80 then Get32(s.scratch, 0) else Get32(t.request, 40)) == 16
  {
    var stale := StaleLengthField(s, t.request[40..], c.initRead);
    NotFoundRight(s, t, Unique(t.request), stale);
    assert stale[0..4] == stale && t.request[40..][0..4] == t.request[40..44];
    assert t.replies == s.replies + Added(s, t);
  }

  /** ReadServed, with the reply spelled out. */
  lemma ReadSent(s: Slot, t: Slot, unique: nat, off: nat, m: nat)
    requires ReadServed(s, t, unique, off, m)
    ensures var file := t.commits[|s.commits|].before;
            && t.commits[|s.commits|].after == file && (m > 0 ==> off + m <= |file|)
            && Added(s, t) == [OutHeader(16 + m, 0, unique) + (if m > 0 then file[off..off + m] else [])]
  {
    assert m == 0 ==> t.commits[|s.commits|].data == [];
  }

  /**
    An answered READ of an offset inside the file, by the 64-bit sum, is a header with the right
    length and the bytes of the file from off, as many as there are and were asked for.
   */
  lemma ReadReturnsTheFile(s: Slot, t: Slot, server: Server, c: Course)
    requires |s.scratch| == SCRATCH_BUF_SIZE && Answered(s, t, server, c)
    requires Opcode(t.request) == FUSE_READ && NodeId(t.request) == 3
    requires server.fsize < TWO64 / 2
    requires var off, size := Get64(t.request[40..], 8), Get32(t.request[40..], 16);
             off <= server.fsize && off + size < TWO64
    ensures var off, size := Get64(t.request[40..], 8), Get32(t.request[40..], 16);
            var m := if size < server.fsize - off then size else server.fsize - off;
            && |t.commits| == |s.commits| + 1 && t.pipe == []
            && var file := t.commits[|s.commits|].before;
            && t.commits[|s.commits|].after == file
            && (m > 0 ==> off + m <= |file|)
            && Added(s, t) == [OutHeader(16 + m, 0, Unique(t.request)) + (if m > 0 then file[off..off + m] else [])]
  {
    FileReadServed(s, t, server, c);
    ServedInside(s, t, Unique(t.request), Get64(t.request[40..], 8), Get32(t.request[40..], 16), server.fsize);
  }

  /** A served READ of an offset inside the file. */
  lemma ServedInside(s: Slot, t: Slot, unique: nat, off: nat, size: nat, fsize: nat)
    requires ReadServed(s, t, unique, off, ClampedSize(off, size, fsize))
    requires off <= fsize < TWO64 / 2 && size < TWO32 && off + size < TWO64
    ensures var m := if size < fsize - off then size else fsize - off;
            && |t.commits| == |s.commits| + 1 && t.pipe == []
            && var file := t.commits[|s.commits|].before;
            && t.commits[|s.commits|].after == file
            && (m > 0 ==> off + m <= |file|)
            && Added(s, t) == [OutHeader(16 + m, 0, unique) + (if m > 0 then file[off..off + m] else [])]
  {
    ClampIsRight(off, size, fsize);
    ReadSent(s, t, unique, off, ReadableSize(off, size, fsize));
  }

  /** The fields of a file request at their places in the whole request. */
  lemma FileFields(req: seq<byte>)
    requires |req| >= 80
    ensures Get64(req[40..], 8) == OffsetOf(req) && Get32(req[40..], 16) == SizeOf(req)
    ensures req[40..][40..] == req[80..]
  {
    BodyFields(req, 40);
  }

  /** What one slot's engine does for a READ is one atomic operation of the shared file. */
  lemma ReadIsAtomic(s: Slot, t: Slot, server: Server, c: Course)
    requires |s.scratch| == SCRATCH_BUF_SIZE && Answered(s, t, server, c)
    requires Opcode(t.request) == FUSE_READ && FileRequest(t.request)
    ensures |t.commits| == |s.commits| + 1 && |Added(s, t)| == 1 && t.pipe == []
    ensures var e := t.commits[|s.commits|];
            Atomic(t.request, server.fsize, e.before) == Served(Added(s, t)[0], e.after)
  {
    var req := t.request;
    FileFields(req);
    FileReadServed(s, t, server, c);
    var e := t.commits[|s.commits|];
    assert ReadCommit(e, OffsetOf(req), Wanted(req, server.fsize));
    assert e.data == [] ==> Head(req, server.fsize) + e.data == Head(req, server.fsize);
  }

  /** The task moved all the data of its WRITE to the file, as the file's log has it. */
  predicate TookAll(s: Slot, t: Slot)
    requires |t.request| >= 80
  {
    |t.commits| > |s.commits| && |t.commits[|s.commits|].data| == SizeOf(t.request)
  }

  /**
    So is a WRITE with data, from nothing but that it ended well and the log of the file shows that
    all of its data was taken: it replaced exactly its range by the payload, the reply is the success
    record, and the pipe is empty again. The kernel's answer to the payload splice was then the size.
   */
  lemma WriteIsAtomic(s: Slot, t: Slot, server: Server, c: Course)
    requires |s.scratch| == SCRATCH_BUF_SIZE && Answered(s, t, server, c)
    requires Opcode(t.request) == FUSE_WRITE && FileRequest(t.request) && TookAll(s, t)
    ensures t.pipe == [] && c.moved == SizeOf(t.request)
    ensures |t.commits| == |s.commits| + 1 && Added(s, t) == [WriteReply(Unique(t.request), SizeOf(t.request))]
    ensures var e := t.commits[|s.commits|];
      && e.after == Overwrite(e.before, OffsetOf(t.request), t.request[80..])
      && Atomic(t.request, server.fsize, e.before) == Served(Added(s, t)[0], e.after)
  {
    WriteOf(s, t, server, c);
    var e := t.commits[|s.commits|];
    AtomicWrite(t.request, server.fsize, e.before);
  }

  /** And only then: a WRITE with data that ended well drained its pipe if and only if all was taken. */
  lemma WriteDrainsIfTaken(s: Slot, t: Slot, server: Server, c: Course)
    requires |s.scratch| == SCRATCH_BUF_SIZE && Answered(s, t, server, c)
    requires Opcode(t.request) == FUSE_WRITE && FileRequest(t.request) && |t.request| > 80
    ensures t.pipe == [] <==> TookAll(s, t)
    ensures LeavesPayload(t.request, c.moved) <==> !TookAll(s, t)
  {
    var r := t.request;
    WriteOf(s, t, server, c);
    WriteDrains(s.(pipe := r[80..]), t, Unique(r), 3, Get64(r, 48), Get32(r, 56), c.moved);
  }

  /**
    The same READ or WRITE served twice on the same contents of the file, in whatever pieces it came,
    a WRITE being taken whole: the same reply and the same contents after it.
   */
  lemma SameFileReply(s1: Slot, t1: Slot, c1: Course, s2: Slot, t2: Slot, c2: Course, server: Server)
    requires |s1.scratch| == |s2.scratch| == SCRATCH_BUF_SIZE
    requires Answered(s1, t1, server, c1) && Answered(s2, t2, server, c2) && t1.request == t2.request
    requires FileRequest(t1.request)
    requires IsRead(t1.request) || (TookAll(s1, t1) && TookAll(s2, t2))
    requires |t1.commits| > |s1.commits| && |t2.commits| > |s2.commits|
    requires t1.commits[|s1.commits|].before == t2.commits[|s2.commits|].before
    ensures Added(s1, t1) == Added(s2, t2)
    ensures t1.commits[|s1.commits|].after == t2.commits[|s2.commits|].after
  {
    if IsRead(t1.request) {
      ReadIsAtomic(s1, t1, server, c1);
      ReadIsAtomic(s2, t2, server, c2);
    } else {
      WriteIsAtomic(s1, t1, server, c1);
      WriteIsAtomic(s2, t2, server, c2);
    }
    assert Added(s1, t1) == [Added(s1, t1)[0]] && Added(s2, t2) == [Added(s2, t2)[0]];
  }

  /**
    A write and a later read of the same range, each one atomic operation, with nothing written
    between them: the data come back, behind the header of the read.
   */
  lemma ReadAfterWrite(w: seq<byte>, r: seq<byte>, fsize: nat, file: seq<byte>)
    requires FileRequest(w) && FileRequest(r) && !IsRead(w) && IsRead(r)
    requires OffsetOf(w) == OffsetOf(r) && SizeOf(w) == SizeOf(r) > 0
    requires OffsetOf(w) + SizeOf(w) <= fsize < TWO64
    ensures Atomic(w, fsize, file).Served?
    ensures Atomic(r, fsize, Atomic(w, fsize, file).file) ==
            Served(OutHeader(16 + SizeOf(w), 0, Unique(r)) + w[80..], Atomic(w, fsize, file).file)
  {
    AtomicWrite(w, fsize, file);
    ReadOfOverwritten(r, fsize, file, w[80..]);
  }

  lemma ReadOfOverwritten(r: seq<byte>, fsize: nat, file: seq<byte>, data: seq<byte>)
    requires FileRequest(r) && IsRead(r) && SizeOf(r) == |data| > 0 && OffsetOf(r) + |data| <= fsize < TWO64
    ensures var after := Overwrite(file, OffsetOf(r), data);
      Atomic(r, fsize, after) == Served(OutHeader(16 + |data|, 0, Unique(r)) + data, after)
  {
    var off, n := OffsetOf(r), |data|;
    var after := Overwrite(file, off, data);
    NothingToCut(r, fsize);
    OverwrittenRange(file, off, data);
    ReadOfRange(r, fsize, after, off, n, data);
  }

  lemma ReadOfRange(r: seq<byte>, fsize: nat, file: seq<byte>, off: nat, n: nat, data: seq<byte>)
    requires FileRequest(r) && IsRead(r) && Wanted(r, fsize) == n > 0 && OffsetOf(r) == off
    requires off + n <= |file| && file[off..off + n] == data
    ensures Atomic(r, fsize, file) == Served(OutHeader(16 + n, 0, Unique(r)) + data, file)
  {
    AtomicRead(r, fsize, file, data);
  }

  /** A read that ends within the file is not cut. */
  lemma NothingToCut(r: seq<byte>, fsize: nat)
    requires |r| >= 80 && OffsetOf(r) + SizeOf(r) <= fsize < TWO64
    ensures Wanted(r, fsize) == SizeOf(r)
  {
  }

  lemma OverwrittenRange(file: seq<byte>, off: nat, data: seq<byte>)
    requires data != []
    ensures var after := Overwrite(file, off, data); off + |data| <= |after| && after[off..off + |data|] == data
  {
  }
}
