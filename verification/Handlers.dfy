/** The handlers of the small requests: they read the body, build a reply over it and send it. */
module Handlers {
  import opened Bytes
  import opened FuseKernel
  import opened KernelOps
  import opened RequestEngine
  import opened Directory

  /** rbytes_buf points at n bytes of the request body. */
  predicate HasBody(io: FuseIo, p: Ptr, n: nat)
    reads io, io.headerBuf, io.scratchBuf, io.heapBuf
  {
    io.Valid() && p.Ptr? && p.at + n <= |BufOf(io.View(), p.buf)|
  }

  function Body(io: FuseIo, p: Ptr, n: nat): (b: seq<byte>)
    requires HasBody(io, p, n)
    reads io, io.headerBuf, io.scratchBuf, io.heapBuf
    ensures |b| == n
  {
    BufOf(io.View(), p.buf)[p.at..p.at + n]
  }

  /** GETATTR asks about the open file instead of the node if its flag says so. */
  function GetattrNode(nodeid: nat, body: seq<byte>): nat
    requires |body| == GETATTR_IN_SIZE
  {
    if And(Get32(body, 0), FUSE_GETATTR_FH) > 0 then Get64(body, 8) else nodeid
  }

  function SetattrNode(nodeid: nat, body: seq<byte>): nat
    requires |body| == SETATTR_IN_SIZE
  {
    if Get64(body, 8) != 0 then Get64(body, 8) else nodeid
  }

  method SendAttr(io: FuseIo, unique: nat, nodeid: nat) returns (rc: int)
    requires io.Valid()
    modifies io, io.headerBuf, io.scratchBuf, io.heapBuf
    ensures rc == 0 || rc == -1
    ensures rc == 0 <==> io.failures == old(io.failures)
    ensures io.Valid() && io.heapBuf == old(io.heapBuf)
    ensures rc == 0 && old(io.pipe) == [] ==>
      io.Replied(old(io.View()), AttrReply(unique, nodeid, io.server, old(io.scratchBuf[28..32])))
  {
    assert io.scratchBuf[..][28..32] == io.scratchBuf[28..32];
    io.PutOutHeader(120, 0, unique);
    io.Poke(16, Put64(3600));
    io.Poke(24, Put32(0));
    if nodeid == 1 {
      io.PutRootAttr(32);
      rc := FinishAttr(io, unique, old(io.scratchBuf[..]), RootAttr());
    } else if nodeid == 3 {
      io.PutVolumeAttr(32);
      rc := FinishAttr(io, unique, old(io.scratchBuf[..]), VolumeAttr(io.server));
    } else {
      io.Poke(32, Zeros(88));
      io.Poke(4, Put32(-EACCES));
      io.Poke(0, Put32(16));
      ErrorOverHeader(old(io.scratchBuf[..]), Put32(120), Put32(0), Put64(unique), Put64(3600), Put32(0), Zeros(88),
                      Put32(-EACCES), Put32(16));
      FramedReply(16, -EACCES, unique, []);
      rc := io.SendScratch(OutHeader(16, -EACCES, unique));
    }
  }

  /** Send the attribute reply whose parts were stored over s. */
  method FinishAttr(io: FuseIo, unique: nat, ghost s: seq<byte>, ghost attr: seq<byte>) returns (rc: int)
    requires io.Valid() && |s| == SCRATCH_BUF_SIZE && |attr| == ATTR_SIZE
    requires io.scratchBuf[..] ==
      Patch(Patch(Patch(Patch(s, 0, OutHeader(120, 0, unique)), 16, Put64(3600)), 24, Put32(0)), 32, attr)
    modifies io, io.headerBuf, io.scratchBuf, io.heapBuf
    ensures rc == 0 || rc == -1
    ensures rc == 0 <==> io.failures == old(io.failures)
    ensures io.Valid() && io.heapBuf == old(io.heapBuf)
    ensures rc == 0 && old(io.pipe) == [] ==>
      io.Replied(old(io.View()), OutHeader(120, 0, unique) + AttrOut(s[28..32], attr))
  {
    AttrReplyInFields(s, OutHeader(120, 0, unique), Put64(3600), Put32(0), attr);
    FramedReply(120, 0, unique, AttrOut(s[28..32], attr));
    rc := io.SendScratch(OutHeader(120, 0, unique) + AttrOut(s[28..32], attr));
  }

  method HandleGetattr(io: FuseIo, p: Ptr) returns (rc: int)
    requires HasBody(io, p, GETATTR_IN_SIZE)
    modifies io, io.headerBuf, io.scratchBuf, io.heapBuf
    ensures rc == 0 || rc == -1
    ensures rc == 0 <==> io.failures == old(io.failures)
    ensures io.Valid() && io.heapBuf == old(io.heapBuf)
    ensures rc == 0 && old(io.pipe) == [] ==>
      var h := old(io.headerBuf[..]);
      io.Replied(old(io.View()), AttrReply(Unique(h), GetattrNode(NodeId(h), old(Body(io, p, GETATTR_IN_SIZE))),
                                           io.server, old(io.scratchBuf[28..32])))
  {
    var body := Body(io, p, GETATTR_IN_SIZE);
    rc := SendAttr(io, Unique(io.headerBuf[..]), GetattrNode(NodeId(io.headerBuf[..]), body));
  }

  method HandleSetattr(io: FuseIo, p: Ptr) returns (rc: int)
    requires HasBody(io, p, SETATTR_IN_SIZE)
    modifies io, io.headerBuf, io.scratchBuf, io.heapBuf
    ensures rc == 0 || rc == -1
    ensures rc == 0 <==> io.failures == old(io.failures)
    ensures io.Valid() && io.heapBuf == old(io.heapBuf)
    ensures rc == 0 && old(io.pipe) == [] ==>
      var h := old(io.headerBuf[..]);
      io.Replied(old(io.View()), AttrReply(Unique(h), SetattrNode(NodeId(h), old(Body(io, p, SETATTR_IN_SIZE))),
                                           io.server, old(io.scratchBuf[28..32])))
  {
    var body := Body(io, p, SETATTR_IN_SIZE);
    rc := SendAttr(io, Unique(io.headerBuf[..]), SetattrNode(NodeId(io.headerBuf[..]), body));
  }

  /** The name is the C string at the body; the reader put a zero behind its n bytes. */
  method HandleLookup(io: FuseIo, p: Ptr, ghost n: nat) returns (rc: int)
    requires HasBody(io, p, n + 1) && Body(io, p, n + 1)[n] == 0
    modifies io, io.headerBuf, io.scratchBuf, io.heapBuf
    ensures rc == 0 || rc == -1
    ensures rc == 0 <==> io.failures == old(io.failures)
    ensures io.Valid() && io.heapBuf == old(io.heapBuf)
    ensures rc == 0 && old(io.pipe) == [] ==>
      io.Replied(old(io.View()),
                 LookupReply(Unique(old(io.headerBuf[..])), CString(old(Body(io, p, n + 1))[..n]), io.server))
  {
    var name := ReadName(io, p, n);
    rc := SendEntry(io, Unique(io.headerBuf[..]), name);
  }

  /** std::string lname = rbytes_buf */
  method ReadName(io: FuseIo, p: Ptr, ghost n: nat) returns (name: seq<byte>)
    requires HasBody(io, p, n + 1) && Body(io, p, n + 1)[n] == 0
    ensures name == CString(Body(io, p, n + 1)[..n])
  {
    name := CString(BufOf(io.View(), p.buf)[p.at..]);
    NameInBuffer(BufOf(io.View(), p.buf), p.at, n);
  }

  /** The entry of a name. */
  method SendEntry(io: FuseIo, unique: nat, name: seq<byte>) returns (rc: int)
    requires io.Valid()
    modifies io, io.headerBuf, io.scratchBuf, io.heapBuf
    ensures rc == 0 || rc == -1
    ensures rc == 0 <==> io.failures == old(io.failures)
    ensures io.Valid() && io.heapBuf == old(io.heapBuf)
    ensures rc == 0 && old(io.pipe) == [] ==> io.Replied(old(io.View()), LookupReply(unique, name, io.server))
  {
    ghost var s := io.scratchBuf[..];
    StartEntry(io, unique);
    rc := FillEntry(io, unique, name == VolumeName(), s);
  }

  /** Node and attributes, over the entry whose other fields were stored over s. */
  method FillEntry(io: FuseIo, unique: nat, volume: bool, ghost s: seq<byte>) returns (rc: int)
    requires io.Valid() && |s| == SCRATCH_BUF_SIZE
    requires io.scratchBuf[..] == EntryStart(s, OutHeader(144, 0, unique), Put64(0), Put64(3600), Put32(0))
    modifies io, io.headerBuf, io.scratchBuf, io.heapBuf
    ensures rc == 0 || rc == -1
    ensures rc == 0 <==> io.failures == old(io.failures)
    ensures io.Valid() && io.heapBuf == old(io.heapBuf)
    ensures rc == 0 && old(io.pipe) == [] ==>
      io.Replied(old(io.View()), OutHeader(144, 0, unique) +
        (if volume then EntryOut(3, VolumeAttr(io.server)) else EntryOut(1, RootAttr())))
  {
    if volume {
      io.Poke(16, Put64(3));
      io.PutVolumeAttr(56);
      rc := FinishEntry(io, unique, s, 3, VolumeAttr(io.server));
    } else {
      io.Poke(16, Put64(1));
      io.PutRootAttr(56);
      rc := FinishEntry(io, unique, s, 1, RootAttr());
    }
  }

  /** The stores of handle_lookup before it looks at the name. */
  method StartEntry(io: FuseIo, unique: nat)
    requires io.Valid()
    modifies io.scratchBuf
    ensures io.scratchBuf[..] ==
      EntryStart(old(io.scratchBuf[..]), OutHeader(144, 0, unique), Put64(0), Put64(3600), Put32(0))
  {
    io.PutOutHeader(144, 0, unique);
    io.Poke(24, Put64(0));
    io.Poke(32, Put64(3600));
    io.Poke(48, Put32(0));
    io.Poke(40, Put64(3600));
    io.Poke(52, Put32(0));
  }

  /** The C string at a place of a buffer, by the zero that lies n bytes behind it. */
  lemma NameInBuffer(b: seq<byte>, at: nat, n: nat)
    requires at + (n + 1) <= |b| && b[at..at + (n + 1)][n] == 0
    ensures CString(b[at..]) == CString(b[at..at + (n + 1)][..n])
  {
    NameSlices(b, at, n);
    CStringStops(b[at..], n);
  }

  lemma NameSlices(b: seq<byte>, at: nat, n: nat)
    requires at + n + 1 <= |b|
    ensures b[at..at + (n + 1)][..n] == b[at..][..n] && b[at..at + (n + 1)][n] == b[at..][n]
  {
  }

  /** Send the entry reply whose parts were stored over s. */
  method FinishEntry(io: FuseIo, unique: nat, ghost s: seq<byte>, ghost node: nat, ghost attr: seq<byte>) returns (rc: int)
    requires io.Valid() && |s| == SCRATCH_BUF_SIZE && |attr| == ATTR_SIZE
    requires io.scratchBuf[..] ==
      EntryPatches(s, OutHeader(144, 0, unique), Put64(node), Put64(0), Put64(3600), Put32(0), attr)
    modifies io, io.headerBuf, io.scratchBuf, io.heapBuf
    ensures rc == 0 || rc == -1
    ensures rc == 0 <==> io.failures == old(io.failures)
    ensures io.Valid() && io.heapBuf == old(io.heapBuf)
    ensures rc == 0 && old(io.pipe) == [] ==>
      io.Replied(old(io.View()), OutHeader(144, 0, unique) + EntryOut(node, attr))
  {
    EntryInFields(s, OutHeader(144, 0, unique), Put64(node), Put64(0), Put64(3600), Put32(0), attr);
    FramedReply(144, 0, unique, EntryOut(node, attr));
    rc := io.SendScratch(OutHeader(144, 0, unique) + EntryOut(node, attr));
  }

  /**
    handle_open and handle_opendir read the flags of the request after the reply header was stored.
    If the body lies in the scratch buffer, the flags they see are the reply's length, 32.
   */
  method HandleOpen(io: FuseIo, p: Ptr, fh: nat, extra: nat) returns (rc: int)
    requires HasBody(io, p, OPEN_IN_SIZE) && (p.buf == ScratchBuf ==> p.at == 0)
    modifies io, io.headerBuf, io.scratchBuf, io.heapBuf
    ensures rc == 0 || rc == -1
    ensures rc == 0 <==> io.failures == old(io.failures)
    ensures io.Valid() && io.heapBuf == old(io.heapBuf)
    ensures rc == 0 && old(io.pipe) == [] ==>
      io.Replied(old(io.View()),
        OpenReply(Unique(old(io.headerBuf[..])), fh,
                  Or(if p.buf == ScratchBuf then 32 else Get32(old(Body(io, p, OPEN_IN_SIZE)), 0), extra),
                  old(io.scratchBuf[28..32])))
  {
    ghost var s := io.scratchBuf[..];
    assert s[28..32] == io.scratchBuf[28..32];
    var unique := Unique(io.headerBuf[..]);
    var flags := StartOpen(io, p, fh, unique);
    rc := FinishOpen(io, unique, fh, Or(flags, extra), s);
  }

  /** The header and fh are stored, then open_in->flags is read. */
  method StartOpen(io: FuseIo, p: Ptr, fh: nat, unique: nat) returns (flags: nat)
    requires HasBody(io, p, OPEN_IN_SIZE) && (p.buf == ScratchBuf ==> p.at == 0)
    modifies io.scratchBuf
    ensures io.scratchBuf[..] == Patch(Patch(old(io.scratchBuf[..]), 0, OutHeader(32, 0, unique)), 16, Put64(fh))
    ensures flags == if p.buf == ScratchBuf then 32 else Get32(old(Body(io, p, OPEN_IN_SIZE)), 0)
  {
    ghost var s, b := io.scratchBuf[..], BufOf(io.View(), p.buf);
    SubSlice(b, p.at, OPEN_IN_SIZE, 0, 4);
    io.PutOutHeader(32, 0, unique);
    io.Poke(16, Put64(fh));
    flags := Get32(BufOf(io.View(), p.buf), p.at);
    if p.buf == ScratchBuf {
      HeaderThenField(s, Put32(32), Put32(0), Put64(unique), Put64(fh));
    } else {
      assert BufOf(io.View(), p.buf) == b;
    }
  }

  method FinishOpen(io: FuseIo, unique: nat, ghost fh: nat, flags: nat, ghost s: seq<byte>) returns (rc: int)
    requires io.Valid() && |s| == SCRATCH_BUF_SIZE
    requires io.scratchBuf[..] == Patch(Patch(s, 0, OutHeader(32, 0, unique)), 16, Put64(fh))
    modifies io, io.headerBuf, io.scratchBuf, io.heapBuf
    ensures rc == 0 || rc == -1
    ensures rc == 0 <==> io.failures == old(io.failures)
    ensures io.Valid() && io.heapBuf == old(io.heapBuf)
    ensures rc == 0 && old(io.pipe) == [] ==>
      io.Replied(old(io.View()), OpenReply(unique, fh, flags, s[28..32]))
  {
    io.Poke(24, Put32(flags));
    OpenInFields(s, OutHeader(32, 0, unique), Put64(fh), Put32(flags));
    FramedReply(32, 0, unique, Put64(fh) + Put32(flags) + s[28..32]);
    rc := io.SendScratch(OpenReply(unique, fh, flags, s[28..32]));
  }

  method HandleReaddir(io: FuseIo, p: Ptr) returns (rc: int)
    requires HasBody(io, p, READ_IN_SIZE)
    modifies io, io.headerBuf, io.scratchBuf, io.heapBuf
    ensures rc == 0 || rc == -1
    ensures rc == 0 <==> io.failures == old(io.failures)
    ensures io.Valid() && (io.heapBuf == old(io.heapBuf) || fresh(io.heapBuf))
    ensures rc == 0 && old(io.pipe) == [] ==>
      io.Replied(old(io.View()),
                 ReaddirReply(Unique(old(io.headerBuf[..])), Get64(old(Body(io, p, READ_IN_SIZE)), 8)))
  {
    var offset := Get64(Body(io, p, READ_IN_SIZE), 8);
    var unique := Unique(io.headerBuf[..]);
    var data := BuildListing(unique, offset);
    rc := io.SendVector(data);
  }

  method AddThree(out: ByteVector, a: Entry, b: Entry, c: Entry, mode: nat)
    requires a.kind == b.kind == c.kind == (mode / 0x1000) % 16
    modifies out
    ensures out.data == old(out.data) + EncodeAll([a, b, c])
  {
    AddDir(out, a.name, a.off, a.ino, mode);
    AddDir(out, b.name, b.off, b.ino, mode);
    AddDir(out, c.name, c.off, c.ino, mode);
    EncodeThree(a, b, c);
    Regroup(old(out.data), Encode(a), Encode(b), Encode(c));
  }

  lemma Regroup(o: seq<byte>, a: seq<byte>, b: seq<byte>, c: seq<byte>)
    ensures o + a + b + c == o + (a + b + c)
  {
  }

  method AppendListing(out: ByteVector, offset: nat)
    modifies out
    ensures out.data == old(out.data) + EncodeAll(Listed(offset))
  {
    if offset == 0 {
      var a, b := Entry(2, offset + 1, 4, [46]), Entry(3, offset + 2, 4, [46, 46]);
      var c := Entry(4, offset + 3, 4, VolumeName());
      AddThree(out, a, b, c, DIR_MODE);
    } else {
      assert out.data + [] == out.data;
    }
  }

  method BuildListing(unique: nat, offset: nat) returns (data: seq<byte>)
    ensures data == ReaddirReply(unique, offset)
  {
    var out := new ByteVector(16);
    out.Poke(4, Put32(0));
    out.Poke(8, Put64(unique));
    AppendListing(out, offset);
    ghost var list, before := EncodeAll(Listed(offset)), out.data;
    assert |before| == 16 + |list|;
    out.Poke(0, Put32(|out.data|));
    data := out.data;
    assert data == Patch(before, 0, Put32(16 + |list|));
    assert data == OutHeader(16 + |list|, 0, unique) + list by { ListHeader(unique, list); }
  }

  // ----------------------------------------------- where the fields end up

  lemma AttrReplyInFields(s: seq<byte>, h: seq<byte>, valid: seq<byte>, nsec: seq<byte>, attr: seq<byte>)
    requires |s| >= 120 && |h| == 16 && |valid| == 8 && |nsec| == 4 && |attr| == 88
    ensures Patch(Patch(Patch(Patch(s, 0, h), 16, valid), 24, nsec), 32, attr)[..120]
         == h + (valid + nsec + s[28..32] + attr)
  {
    PatchFacts(s, 0, h);
    var a := Patch(s, 0, h);
    PatchFacts(a, 16, valid);
    var b := Patch(a, 16, valid);
    PatchFacts(b, 24, nsec);
    PatchFacts(Patch(b, 24, nsec), 32, attr);
  }

  lemma ErrorOverHeader(s: seq<byte>, len: seq<byte>, ok: seq<byte>, unique: seq<byte>, valid: seq<byte>,
                        nsec: seq<byte>, attr: seq<byte>, error: seq<byte>, short: seq<byte>)
    requires |s| >= 120 && |len| == 4 && |ok| == 4 && |unique| == 8 && |valid| == 8 && |nsec| == 4
    requires |attr| == 88 && |error| == 4 && |short| == 4
    ensures
      var t := Patch(Patch(Patch(Patch(s, 0, len + ok + unique), 16, valid), 24, nsec), 32, attr);
      Patch(Patch(t, 4, error), 0, short)[..16] == short + error + unique
  {
    PatchFacts(s, 0, len + ok + unique);
    var a := Patch(s, 0, len + ok + unique);
    PatchFacts(a, 16, valid);
    var b := Patch(a, 16, valid);
    PatchFacts(b, 24, nsec);
    var c := Patch(b, 24, nsec);
    PatchFacts(c, 32, attr);
    var t := Patch(c, 32, attr);
    PatchFacts(t, 4, error);
    PatchFacts(Patch(t, 4, error), 0, short);
  }

  /** The stores of handle_lookup, in its order. */
  ghost function EntryStart(s: seq<byte>, h: seq<byte>, zero: seq<byte>, valid: seq<byte>, nsec: seq<byte>): (t: seq<byte>)
    requires |s| >= 144 && |h| == 16 && |zero| == 8 && |valid| == 8 && |nsec| == 4
    ensures |t| == |s|
  {
    var t := Patch(Patch(Patch(Patch(s, 0, h), 24, zero), 32, valid), 48, nsec);
    Patch(Patch(t, 40, valid), 52, nsec)
  }

  ghost function EntryPatches(s: seq<byte>, h: seq<byte>, node: seq<byte>, zero: seq<byte>, valid: seq<byte>,
                              nsec: seq<byte>, attr: seq<byte>): seq<byte>
    requires |s| >= 144 && |h| == 16 && |node| == 8 && |zero| == 8 && |valid| == 8 && |nsec| == 4 && |attr| == 88
  {
    Patch(Patch(EntryStart(s, h, zero, valid, nsec), 16, node), 56, attr)
  }

  lemma EntryInFields(s: seq<byte>, h: seq<byte>, node: seq<byte>, zero: seq<byte>, valid: seq<byte>,
                      nsec: seq<byte>, attr: seq<byte>)
    requires |s| >= 144 && |h| == 16 && |node| == 8 && |zero| == 8 && |valid| == 8 && |nsec| == 4 && |attr| == 88
    ensures EntryPatches(s, h, node, zero, valid, nsec, attr)[..144]
         == h + (node + zero + valid + valid + nsec + nsec + attr)
  {
    var n := s[16..24];
    var a := Patch(s, 0, h);
    assert a == h + n + s[24..];
    var b := Patch(a, 24, zero);
    assert b == h + n + zero + s[32..];
    var c := Patch(b, 32, valid);
    assert c == h + n + zero + valid + s[40..];
    var d := Patch(c, 48, nsec);
    assert d == h + n + zero + valid + s[40..48] + nsec + s[52..];
    var e := Patch(d, 40, valid);
    assert e == h + n + zero + valid + valid + nsec + s[52..];
    var f := Patch(e, 52, nsec);
    assert f == h + n + zero + valid + valid + nsec + nsec + s[56..];
    var g := Patch(f, 16, node);
    assert g == h + node + zero + valid + valid + nsec + nsec + s[56..];
    assert Patch(g, 56, attr) == h + node + zero + valid + valid + nsec + nsec + attr + s[144..];
  }

  lemma OpenInFields(s: seq<byte>, h: seq<byte>, fh: seq<byte>, flags: seq<byte>)
    requires |s| >= 32 && |h| == 16 && |fh| == 8 && |flags| == 4
    ensures Patch(Patch(Patch(s, 0, h), 16, fh), 24, flags)[..32] == h + (fh + flags + s[28..32])
  {
    PatchFacts(s, 0, h);
    var a := Patch(s, 0, h);
    PatchFacts(a, 16, fh);
    PatchFacts(Patch(a, 16, fh), 24, flags);
  }

  lemma HeaderThenField(s: seq<byte>, len: seq<byte>, error: seq<byte>, unique: seq<byte>, fh: seq<byte>)
    requires |s| >= 32 && |len| == 4 && |error| == 4 && |unique| == 8 && |fh| == 8
    ensures Patch(Patch(s, 0, len + error + unique), 16, fh)[0..4] == len
  {
  }

  /** The vector's header, set before and after the records are appended. */
  lemma ListHeader(unique: nat, list: seq<byte>)
    ensures
      var head := Patch(Patch(Zeros(16), 4, Put32(0)), 8, Put64(unique));
      Patch(head + list, 0, Put32(16 + |list|)) == OutHeader(16 + |list|, 0, unique) + list
  {
    ListHeaderInFields(Put32(0), Put64(unique), list, Put32(16 + |list|));
  }

  lemma ListHeaderInFields(error: seq<byte>, unique: seq<byte>, list: seq<byte>, len: seq<byte>)
    requires |error| == 4 && |unique| == 8 && |len| == 4
    ensures
      var head := Patch(Patch(Zeros(16), 4, error), 8, unique);
      Patch(head + list, 0, len) == len + error + unique + list
  {
  }

  /** A C string ends at the latest at the zero byte at n. */
  lemma {:induction false} CStringStops(s: seq<byte>, n: nat)
    requires n < |s| && s[n] == 0
    ensures CString(s) == CString(s[..n])
  {
    if n > 0 && s[0] != 0 {
      CStringStops(s[1..], n - 1);
      assert s[..n][1..] == s[1..][..n - 1];
    }
  }
}
