/**
  The answers as the kernel reads them: every field at its byte offset, from the bytes of the request
  at theirs. Opcodes, nodes, sizes and offsets are written out as the protocol has them.
 */
module ReplyFields {
  import opened Bytes
  import opened FuseKernel
  import opened KernelOps
  import opened Handlers
  import opened FileRequests
  import opened Directory
  import opened Dispatch
  import opened Replies

  // ------------------------------------------------------------ single fields

  lemma FieldInPart32(m: seq<byte>, lo: nat, hi: nat, k: nat)
    requires lo + k + 4 <= hi <= |m|
    ensures Get32(m[lo..hi], k) == Get32(m, lo + k)
  {
    SubSlice(m, lo, hi - lo, k, k + 4);
  }

  lemma FieldInPart64(m: seq<byte>, lo: nat, hi: nat, k: nat)
    requires lo + k + 8 <= hi <= |m|
    ensures Get64(m[lo..hi], k) == Get64(m, lo + k)
  {
    SubSlice(m, lo, hi - lo, k, k + 8);
  }

  // ------------------------------------------------------------------ records

  /** fuse_out_header: its own length, the negated error, the request's unique. */
  ghost predicate HeaderIs(m: seq<byte>, error: nat, unique: nat) {
    |m| >= 16 && Get32(m, 0) == |m| && Get32(m, 4) == (TWO32 - error) % TWO32 && Get64(m, 8) == unique
  }

  /** fuse_attr at offset at: inode, size, blocks, mode and block size; every other byte is zero. */
  ghost predicate AttrIs(m: seq<byte>, at: nat, ino: nat, size: nat, blocks: nat, mode: nat, blksize: nat) {
    && at + 88 <= |m|
    && Get64(m, at) == ino && Get64(m, at + 8) == size && Get64(m, at + 16) == blocks
    && Get32(m, at + 60) == mode && Get32(m, at + 80) == blksize
    && (forall i :: at + 24 <= i < at + 60 || at + 64 <= i < at + 80 || at + 84 <= i < at + 88 ==> m[i] == 0)
  }

  /** The directory: inode 1, mode 040777. */
  ghost predicate IsRoot(m: seq<byte>, at: nat) { AttrIs(m, at, 1, 0, 0, 0x41ff, 0) }

  /** The volume: inode 3, mode 0100777, the size of the backing file, the blocks that rounding up to 512 gives. */
  ghost predicate IsVolume(m: seq<byte>, at: nat, server: Server) {
    exists blocks: nat ::
      && blocks % 512 == 0 && server.fsize <= blocks < server.fsize + 512
      && AttrIs(m, at, 3, server.fsize, blocks, 0x81ff, server.pageSize)
  }

  /** Sizes as the program can hold them. */
  predicate Fits(server: Server) { server.fsize < TWO64 / 2 && server.pageSize < TWO32 }

  lemma AttrFields(ino: nat, size: nat, blocks: nat, mode: nat, blksize: nat)
    requires ino < TWO64 && size < TWO64 && blocks < TWO64 && mode < TWO32 && blksize < TWO32
    ensures AttrIs(Attr(ino, size, blocks, mode, blksize), 0, ino, size, blocks, mode, blksize)
  {
    var a, b, c, d, e := Put64(ino), Put64(size), Put64(blocks), Put32(mode), Put32(blksize);
    var m := Attr(ino, size, blocks, mode, blksize);
    assert m == a + b + c + Zeros(36) + d + Zeros(16) + e + Zeros(4);
    AttrPlaces(a, b, c, d, e);
  }

  lemma AttrPlaces(a: seq<byte>, b: seq<byte>, c: seq<byte>, d: seq<byte>, e: seq<byte>)
    requires |a| == |b| == |c| == 8 && |d| == |e| == 4
    ensures var m := a + b + c + Zeros(36) + d + Zeros(16) + e + Zeros(4);
      && m[0..8] == a && m[8..16] == b && m[16..24] == c && m[60..64] == d && m[80..84] == e
      && forall i :: 24 <= i < 60 || 64 <= i < 80 || 84 <= i < 88 ==> m[i] == 0
  {
  }

  /** A record keeps its fields inside a message. */
  lemma AttrInside(m: seq<byte>, at: nat, ino: nat, size: nat, blocks: nat, mode: nat, blksize: nat)
    requires at + 88 <= |m| && AttrIs(m[at..at + 88], 0, ino, size, blocks, mode, blksize)
    ensures AttrIs(m, at, ino, size, blocks, mode, blksize)
  {
    var a := m[at..at + 88];
    FieldInPart64(m, at, at + 88, 0);
    FieldInPart64(m, at, at + 88, 8);
    FieldInPart64(m, at, at + 88, 16);
    FieldInPart32(m, at, at + 88, 60);
    FieldInPart32(m, at, at + 88, 80);
    forall i | at + 24 <= i < at + 60 || at + 64 <= i < at + 80 || at + 84 <= i < at + 88
      ensures m[i] == 0
    {
      assert m[i] == a[i - at];
    }
  }

  lemma RootInside(m: seq<byte>, at: nat)
    requires at + 88 <= |m| && m[at..at + 88] == RootAttr()
    ensures IsRoot(m, at)
  {
    AttrFields(1, 0, 0, DIR_MODE, 0);
    AttrInside(m, at, 1, 0, 0, DIR_MODE, 0);
  }

  lemma RoundUp512(x: nat)
    ensures RoundUp(x, 512) % 512 == 0 && x <= RoundUp(x, 512) < x + 512
  {
  }

  lemma VolumeInside(m: seq<byte>, at: nat, server: Server)
    requires at + 88 <= |m| && m[at..at + 88] == VolumeAttr(server) && Fits(server)
    ensures IsVolume(m, at, server)
  {
    var blocks := RoundUp(server.fsize, 512);
    RoundUp512(server.fsize);
    AttrFields(3, server.fsize, blocks, FILE_MODE, server.pageSize);
    AttrInside(m, at, 3, server.fsize, blocks, FILE_MODE, server.pageSize);
  }

  lemma HeaderFields(len: nat, error: int, unique: nat, rest: seq<byte>)
    requires len == 16 + |rest| < TWO32 && 0 <= error < TWO32 && unique < TWO64
    ensures HeaderIs(OutHeader(len, -error, unique) + rest, error, unique)
  {
    var a, b, c := Put32(len), Put32(-error), Put64(unique);
    var m := OutHeader(len, -error, unique) + rest;
    assert m == a + b + c + rest;
    assert m[0..4] == a && m[4..8] == b && m[8..16] == c;
    assert Wrap32(-error) == (TWO32 - error) % TWO32;
  }

  lemma GoodHeader(len: nat, unique: nat, rest: seq<byte>)
    requires len == 16 + |rest| < TWO32 && unique < TWO64
    ensures HeaderIs(OutHeader(len, 0, unique) + rest, 0, unique)
  {
    var zero := 0;
    HeaderFields(len, zero, unique, rest);
    assert -zero == 0;
  }

  lemma BareHeader(error: int, unique: nat)
    requires 0 <= error < TWO32 && unique < TWO64
    ensures HeaderIs(OutHeader(16, -error, unique), error, unique)
  {
    HeaderFields(16, error, unique, []);
    assert OutHeader(16, -error, unique) + [] == OutHeader(16, -error, unique);
  }

  // --------------------------------------------------------- GETATTR, SETATTR

  /** fuse_attr_out for one hour, about a node. */
  ghost predicate AttrMessage(m: seq<byte>, unique: nat, node: nat, server: Server) {
    if node == 1 || node == 3 then
      && |m| == 120 && HeaderIs(m, 0, unique) && Get64(m, 16) == 3600 && Get32(m, 24) == 0
      && (if node == 1 then IsRoot(m, 32) else IsVolume(m, 32, server))
    else |m| == 16 && HeaderIs(m, 13, unique)
  }

  lemma AttrReplyFields(unique: nat, node: nat, server: Server, dummy: seq<byte>)
    requires unique < TWO64 && |dummy| == 4 && Fits(server)
    ensures AttrMessage(AttrReply(unique, node, server, dummy), unique, node, server)
  {
    if node == 1 {
      AttrOutFields(unique, dummy, RootAttr());
      RootInside(OutHeader(120, 0, unique) + AttrOut(dummy, RootAttr()), 32);
    } else if node == 3 {
      AttrOutFields(unique, dummy, VolumeAttr(server));
      VolumeInside(OutHeader(120, 0, unique) + AttrOut(dummy, VolumeAttr(server)), 32, server);
    } else {
      BareHeader(EACCES, unique);
    }
  }

  lemma AttrOutFields(unique: nat, dummy: seq<byte>, attr: seq<byte>)
    requires unique < TWO64 && |dummy| == 4 && |attr| == 88
    ensures var m := OutHeader(120, 0, unique) + AttrOut(dummy, attr);
      && |m| == 120 && HeaderIs(m, 0, unique) && Get64(m, 16) == 3600 && Get32(m, 24) == 0 && m[32..120] == attr
  {
    GoodHeader(120, unique, AttrOut(dummy, attr));
    AttrOutPlaces(OutHeader(120, 0, unique), Put64(3600), Put32(0), dummy, attr);
  }

  lemma AttrOutPlaces(h: seq<byte>, valid: seq<byte>, nsec: seq<byte>, dummy: seq<byte>, attr: seq<byte>)
    requires |h| == 16 && |valid| == 8 && |nsec| == |dummy| == 4 && |attr| == 88
    ensures var m := h + (valid + nsec + dummy + attr);
      |m| == 120 && m[16..24] == valid && m[24..28] == nsec && m[32..120] == attr
  {
  }

  lemma OddIsFlag(x: nat)
    ensures And(x, 1) > 0 <==> x % 2 == 1
  {
  }

  /**
    GETATTR, opcode 3: the one message is about the file handle of the request, at byte 48, if bit 0 of
    its flags, at byte 40, is set, and about the node of its header, at byte 16, if it is not.
   */
  lemma GetattrAnswer(s: Slot, t: Slot, server: Server, c: Course)
    requires |s.scratch| == SCRATCH_BUF_SIZE && Answered(s, t, server, c) && Fits(server)
    requires Get32(t.request, 4) == 3
    ensures |t.request| == 56 && |Added(s, t)| == 1
    ensures var r := t.request;
      AttrMessage(Added(s, t)[0], Get64(r, 8), if Get32(r, 40) % 2 == 1 then Get64(r, 48) else Get64(r, 16), server)
  {
    var r := t.request;
    GetattrOf(s, t, server, c);
    BodyFields(r, 16);
    OddIsFlag(Get32(r, 40));
    FieldInPart32(r, 40, 56, 0);
    assert r[40..] == r[40..56];
    AttrReplyFields(Unique(r), GetattrNode(NodeId(r), r[40..]), server, s.scratch[28..32]);
  }

  lemma SetattrOf(s: Slot, t: Slot, server: Server, c: Course)
    requires |s.scratch| == SCRATCH_BUF_SIZE && Answered(s, t, server, c) && Opcode(t.request) == FUSE_SETATTR
    ensures |t.request| == 128
    ensures var r := t.request;
      Added(s, t) == [AttrReply(Unique(r), SetattrNode(NodeId(r), r[40..]), server, r[40..][28..32])]
  {
    var r := t.request;
    SentAdds(s, t, AttrReply(Unique(r), SetattrNode(NodeId(r), r[40..]), server, r[40..][28..32]));
  }

  /** SETATTR, opcode 4: about the file handle at byte 48 unless that is 0; nothing is set. */
  lemma SetattrAnswer(s: Slot, t: Slot, server: Server, c: Course)
    requires |s.scratch| == SCRATCH_BUF_SIZE && Answered(s, t, server, c) && Fits(server)
    requires Get32(t.request, 4) == 4
    ensures |t.request| == 128 && |Added(s, t)| == 1 && t.commits == s.commits
    ensures var r := t.request;
      AttrMessage(Added(s, t)[0], Get64(r, 8), if Get64(r, 48) != 0 then Get64(r, 48) else Get64(r, 16), server)
  {
    var r := t.request;
    SetattrOf(s, t, server, c);
    BodyFields(r, 88);
    assert r[40..] == r[40..128];
    AttrReplyFields(Unique(r), SetattrNode(NodeId(r), r[40..]), server, r[40..][28..32]);
  }

  // ------------------------------------------------------------------- LOOKUP

  /** fuse_entry_out: node, generation 0, one hour for name and attributes, the attributes. */
  ghost predicate EntryMessage(m: seq<byte>, unique: nat, node: nat, server: Server) {
    && |m| == 144 && HeaderIs(m, 0, unique)
    && Get64(m, 16) == node && Get64(m, 24) == 0 && Get64(m, 32) == 3600 && Get64(m, 40) == 3600
    && Get32(m, 48) == 0 && Get32(m, 52) == 0
    && (if node == 3 then IsVolume(m, 56, server) else IsRoot(m, 56))
  }

  lemma VolumeEntry(unique: nat, server: Server)
    requires unique < TWO64 && Fits(server)
    ensures EntryMessage(OutHeader(144, 0, unique) + EntryOut(3, VolumeAttr(server)), unique, 3, server)
  {
    EntryOutFields(unique, 3, VolumeAttr(server));
    VolumeInside(OutHeader(144, 0, unique) + EntryOut(3, VolumeAttr(server)), 56, server);
  }

  lemma RootEntry(unique: nat, server: Server)
    requires unique < TWO64
    ensures EntryMessage(OutHeader(144, 0, unique) + EntryOut(1, RootAttr()), unique, 1, server)
  {
    EntryOutFields(unique, 1, RootAttr());
    RootInside(OutHeader(144, 0, unique) + EntryOut(1, RootAttr()), 56);
  }

  lemma EntryOutFields(unique: nat, node: nat, attr: seq<byte>)
    requires unique < TWO64 && node < TWO64 && |attr| == 88
    ensures var m := OutHeader(144, 0, unique) + EntryOut(node, attr);
      && |m| == 144 && HeaderIs(m, 0, unique)
      && Get64(m, 16) == node && Get64(m, 24) == 0 && Get64(m, 32) == 3600 && Get64(m, 40) == 3600
      && Get32(m, 48) == 0 && Get32(m, 52) == 0 && m[56..144] == attr
  {
    GoodHeader(144, unique, EntryOut(node, attr));
    EntryFields(OutHeader(144, 0, unique) + EntryOut(node, attr), OutHeader(144, 0, unique), node, attr);
  }

  lemma EntryFields(m: seq<byte>, h: seq<byte>, node: nat, attr: seq<byte>)
    requires |h| == 16 && node < TWO64 && |attr| == 88 && m == h + EntryOut(node, attr)
    ensures |m| == 144 && m[56..144] == attr
    ensures Get64(m, 16) == node && Get64(m, 24) == 0 && Get64(m, 32) == 3600 && Get64(m, 40) == 3600
    ensures Get32(m, 48) == 0 && Get32(m, 52) == 0
  {
    EntryPlaces(h, Put64(node), Put64(0), Put64(3600), Put32(0), attr);
  }

  lemma EntryPlaces(h: seq<byte>, node: seq<byte>, gen: seq<byte>, valid: seq<byte>, nsec: seq<byte>, attr: seq<byte>)
    requires |h| == 16 && |node| == |gen| == |valid| == 8 && |nsec| == 4 && |attr| == 88
    ensures var m := h + (node + gen + valid + valid + nsec + nsec + attr);
      && m[16..24] == node && m[24..32] == gen && m[32..40] == valid && m[40..48] == valid
      && m[48..52] == nsec && m[52..56] == nsec && m[56..144] == attr
  {
  }

  /** The body is the name "volume", and ends there or has a zero behind it. */
  predicate NamesVolume(b: seq<byte>) {
    |b| >= 6 && b[..6] == [118, 111, 108, 117, 109, 101] && (|b| == 6 || b[6] == 0)
  }

  lemma {:induction false} CStringIs(s: seq<byte>, name: seq<byte>)
    requires forall i :: 0 <= i < |name| ==> name[i] != 0
    ensures CString(s) == name <==> |name| <= |s| && s[..|name|] == name && (|name| == |s| || s[|name|] == 0)
  {
    if s != [] && name != [] && s[0] == name[0] {
      CStringIs(s[1..], name[1..]);
      assert name == [name[0]] + name[1..];
      if |name| <= |s| {
        assert s[..|name|] == [s[0]] + s[1..][..|name| - 1];
      }
    }
  }

  /** LOOKUP, opcode 1: node 3 with the volume's attributes for the name "volume", node 1 for every other. */
  lemma LookupAnswer(s: Slot, t: Slot, server: Server, c: Course)
    requires |s.scratch| == SCRATCH_BUF_SIZE && Answered(s, t, server, c) && Fits(server)
    requires Get32(t.request, 4) == 1
    ensures |Added(s, t)| == 1
    ensures EntryMessage(Added(s, t)[0], Get64(t.request, 8), if NamesVolume(t.request[40..]) then 3 else 1, server)
  {
    LookupOf(s, t, server, c);
    LookupMessage(t.request, server);
  }

  lemma LookupMessage(r: seq<byte>, server: Server)
    requires |r| >= 40 && Fits(server)
    ensures EntryMessage(LookupReply(Unique(r), CString(r[40..]), server), Get64(r, 8),
                         if NamesVolume(r[40..]) then 3 else 1, server)
  {
    CStringIs(r[40..], VolumeName());
    LookupReplyFields(Unique(r), CString(r[40..]), server);
  }

  lemma LookupReplyFields(unique: nat, name: seq<byte>, server: Server)
    requires unique < TWO64 && Fits(server)
    ensures EntryMessage(LookupReply(unique, name, server), unique,
                         if name == [118, 111, 108, 117, 109, 101] then 3 else 1, server)
  {
    if name == VolumeName() {
      VolumeEntry(unique, server);
    } else {
      RootEntry(unique, server);
    }
  }

  lemma LookupOf(s: Slot, t: Slot, server: Server, c: Course)
    requires |s.scratch| == SCRATCH_BUF_SIZE && Answered(s, t, server, c) && Opcode(t.request) == FUSE_LOOKUP
    ensures Added(s, t) == [LookupReply(Unique(t.request), CString(t.request[40..]), server)]
  {
    SentAdds(s, t, LookupReply(Unique(t.request), CString(t.request[40..]), server));
  }

  // ------------------------------------------------------- OPEN and the others

  /** Bit k of a number. */
  predicate Bit(x: nat, k: nat) { x / Pow2(k) % 2 == 1 }

  lemma {:induction false} OrBits(x: nat, y: nat, k: nat)
    ensures Bit(Or(x, y), k) <==> Bit(x, k) || Bit(y, k)
    decreases k
  {
    if k > 0 {
      OrBits(x / 2, y / 2, k - 1);
      HalfBit(x, k);
      HalfBit(y, k);
      HalfBit(Or(x, y), k);
      assert Or(x, y) / 2 == Or(x / 2, y / 2);
    }
  }

  lemma HalfBit(x: nat, k: nat)
    requires k > 0
    ensures Bit(x, k) <==> Bit(x / 2, k - 1)
  {
    var p := Pow2(k - 1);
    DivTwice(x, p);
  }

  lemma DivTwice(x: nat, p: nat)
    requires p > 0
    ensures x / (2 * p) == x / 2 / p
  {
    var h := x / 2;
    var q, r := h / p, h % p;
    assert h == p * q + r;
    var lo := 2 * r + x % 2;
    assert x == (2 * p) * q + lo by {
      assert (2 * p) * q == 2 * (p * q);
    }
    DivModUnique(x, 2 * p, q, lo);
  }

  /** fuse_open_out: the file handle and the flags. */
  ghost predicate OpenMessage(m: seq<byte>, unique: nat, fh: nat, flags: nat) {
    |m| == 32 && HeaderIs(m, 0, unique) && Get64(m, 16) == fh && Get32(m, 24) == flags
  }

  lemma OpenReplyFields(unique: nat, fh: nat, flags: nat, padding: seq<byte>)
    requires unique < TWO64 && fh < TWO64 && flags < TWO32 && |padding| == 4
    ensures OpenMessage(OpenReply(unique, fh, flags, padding), unique, fh, flags)
  {
    var rest := Put64(fh) + Put32(flags) + padding;
    GoodHeader(32, unique, rest);
    var m := OutHeader(32, 0, unique) + rest;
    assert m[16..24] == Put64(fh) && m[24..28] == Put32(flags);
  }

  lemma OpenSees(r: seq<byte>, initRead: nat)
    requires |r| == 48
    ensures SeenFlags(r[40..], initRead) == if initRead == 48 then Get32(r, 40) else 32
  {
    FieldInPart32(r, 40, 48, 0);
    assert r[40..] == r[40..48];
  }

  /** The bits that are set anyway: direct I/O and keep cache for a file, cache for a directory. */
  lemma ExtraBits(k: nat)
    ensures Bit(3, k) <==> k == 0 || k == 1
    ensures Bit(8, k) <==> k == 3
  {
    assert Pow2(1) == 2 && Pow2(2) == 4 && Pow2(3) == 8 && Pow2(4) == 16;
    if k >= 4 {
      Pow2Monotone(4, k);
      assert 3 / Pow2(k) == 0 && 8 / Pow2(k) == 0;
    }
  }

  /**
    What an OPEN, opcode 14, or OPENDIR, opcode 27, is told: handle 3 or 1, and bit k of the flags is
    that of `seen`, or set anyway: bits 0 and 1 for a file, bit 3 for the directory.
   */
  ghost predicate OpenTold(m: seq<byte>, r: seq<byte>, seen: nat, k: nat) {
    && |m| == 32 && |r| == 48
    && var file, flags := Get32(r, 4) == 14, Get32(m, 24);
    && OpenMessage(m, Get64(r, 8), if file then 3 else 1, flags)
    && (Bit(flags, k) <==> Bit(seen, k) || (if file then k == 0 || k == 1 else k == 3))
  }

  /** For every bit: the flags seen are those of the request, at byte 40, or 32 unless all of it came with the header. */
  lemma OpenAnswer(s: Slot, t: Slot, server: Server, c: Course, k: nat)
    requires |s.scratch| == SCRATCH_BUF_SIZE && Answered(s, t, server, c)
    requires Get32(t.request, 4) == 14 || Get32(t.request, 4) == 27
    ensures |t.request| == 48 && |Added(s, t)| == 1
    ensures OpenTold(Added(s, t)[0], t.request, if c.initRead == 48 then Get32(t.request, 40) else 32, k)
  {
    var r, op := t.request, Opcode(t.request);
    OpenOf(s, t, server, c);
    OpenSees(r, c.initRead);
    var flags := SeenFlags(r[40..], c.initRead);
    SentAdds(s, t, OpenReply(Unique(r), OpenHandle(op), Or(flags, OpenExtra(op)), s.scratch[28..32]));
    OpenMessageTold(r, flags, s.scratch[28..32], k);
  }

  lemma OpenMessageTold(r: seq<byte>, seen: nat, padding: seq<byte>, k: nat)
    requires |r| == 48 && Opcode(r) in {FUSE_OPEN, FUSE_OPENDIR} && seen < TWO32 && |padding| == 4
    ensures OpenTold(OpenReply(Unique(r), OpenHandle(Opcode(r)), Or(seen, OpenExtra(Opcode(r))), padding), r, seen, k)
  {
    var op := Opcode(r);
    Pow2Of32();
    OrBelow(seen, OpenExtra(op), 32);
    OpenReplyFields(Unique(r), OpenHandle(op), Or(seen, OpenExtra(op)), padding);
    OrBits(seen, OpenExtra(op), k);
    ExtraBits(k);
  }

  /** RELEASE and RELEASEDIR, opcodes 18 and 29: a bare header without an error; 24 bytes of body are wanted. */
  lemma ReleaseAnswer(s: Slot, t: Slot, server: Server, c: Course)
    requires |s.scratch| == SCRATCH_BUF_SIZE && Answered(s, t, server, c)
    requires Get32(t.request, 4) == 18 || Get32(t.request, 4) == 29
    ensures |t.request| == 64 && |Added(s, t)| == 1
    ensures var m := Added(s, t)[0]; |m| == 16 && HeaderIs(m, 0, Get64(t.request, 8))
  {
    SentAdds(s, t, OutHeader(16, 0, Unique(t.request)));
    BareHeader(0, Unique(t.request));
  }

  /** Every other opcode: a bare header with error 38. */
  lemma UnknownAnswer(s: Slot, t: Slot, server: Server, c: Course)
    requires |s.scratch| == SCRATCH_BUF_SIZE && Answered(s, t, server, c)
    requires Get32(t.request, 4) !in {1, 3, 4, 14, 15, 16, 18, 27, 28, 29}
    ensures |Added(s, t)| == 1
    ensures var m := Added(s, t)[0]; |m| == 16 && HeaderIs(m, 38, Get64(t.request, 8))
  {
    SentAdds(s, t, OutHeader(16, -ENOSYS, Unique(t.request)));
    BareHeader(ENOSYS, Unique(t.request));
  }

  /**
    READDIR, opcode 28: at offset 0, at byte 48, a reader finds the three entries "." with inode 2,
    ".." with inode 3 and "volume" with inode 4, all of them directories, and the cookies 1, 2, 3; at
    any other offset none.
   */
  lemma ReaddirAnswer(s: Slot, t: Slot, server: Server, c: Course)
    requires |s.scratch| == SCRATCH_BUF_SIZE && Answered(s, t, server, c)
    requires Get32(t.request, 4) == 28
    ensures |t.request| == 80 && |Added(s, t)| == 1
    ensures var m := Added(s, t)[0];
      && HeaderIs(m, 0, Get64(t.request, 8))
      && Parse(m[16..]) == if Get64(t.request, 48) != 0 then [] else
           [Entry(2, 1, 4, [46]), Entry(3, 2, 4, [46, 46]), Entry(4, 3, 4, [118, 111, 108, 117, 109, 101])]
  {
    ReaddirOf(s, t, server, c);
    ListingFields(Unique(t.request), Get64(t.request, 48));
  }

  lemma ReaddirOf(s: Slot, t: Slot, server: Server, c: Course)
    requires |s.scratch| == SCRATCH_BUF_SIZE && Answered(s, t, server, c) && Opcode(t.request) == FUSE_READDIR
    ensures |t.request| == 80 && Added(s, t) == [ReaddirReply(Unique(t.request), Get64(t.request, 48))]
  {
    BodyFields(t.request, 40);
    SentAdds(s, t, ReaddirReply(Unique(t.request), Get64(t.request[40..], 8)));
  }

  lemma ListingFields(unique: nat, offset: nat)
    requires unique < TWO64
    ensures HeaderIs(ReaddirReply(unique, offset), 0, unique)
    ensures Parse(ReaddirReply(unique, offset)[16..]) == if offset != 0 then [] else
      [Entry(2, 1, 4, [46]), Entry(3, 2, 4, [46, 46]), Entry(4, 3, 4, [118, 111, 108, 117, 109, 101])]
  {
    ReaddirReplyReads(unique, offset);
    ListingSize(offset);
    var list := EncodeAll(Directory.Listed(offset));
    GoodHeader(16 + |list|, unique, list);
  }

  // ------------------------------------------------------------- READ and WRITE

  /**
    READ of the file, opcode 15 and node 3, at an offset inside it: the header, then the bytes of the
    file from the offset at byte 48 of the request, as many as its size, at byte 56, or as there are.
   */
  lemma ReadAnswer(s: Slot, t: Slot, server: Server, c: Course)
    requires |s.scratch| == SCRATCH_BUF_SIZE && Answered(s, t, server, c) && Fits(server)
    requires Get32(t.request, 4) == 15 && Get64(t.request, 16) == 3
    requires |t.request| >= 80 && Get64(t.request, 48) <= server.fsize
    ensures |t.request| == 80 && |Added(s, t)| == 1 && |t.commits| == |s.commits| + 1
    ensures var r, m, e := t.request, Added(s, t)[0], t.commits[|s.commits|];
      var off, size, there := Get64(r, 48), Get32(r, 56), server.fsize - Get64(r, 48);
      var n := if size < there then size else there;
      && |m| == 16 + n && HeaderIsLong(m, Get64(r, 8)) && e.after == e.before
      && (n > 0 ==> off + n <= |e.before|)
      && m[16..] == if n > 0 then e.before[off..off + n] else []
  {
    var r := t.request;
    FileReadServed(s, t, server, c);
    BodyFields(r, 40);
    ServedRead(s, t, Unique(r), Get64(r, 48), Get32(r, 56), server);
  }

  lemma ServedRead(s: Slot, t: Slot, unique: nat, off: nat, size: nat, server: Server)
    requires ReadServed(s, t, unique, off, ClampedSize(off, size, server.fsize))
    requires Fits(server) && off <= server.fsize && size < TWO32 && unique < TWO64
    ensures |Added(s, t)| == 1 && |t.commits| == |s.commits| + 1
    ensures var m, e, there := Added(s, t)[0], t.commits[|s.commits|], server.fsize - off;
      var n := if size < there then size else there;
      && |m| == 16 + n && HeaderIsLong(m, unique) && e.after == e.before
      && (n > 0 ==> off + n <= |e.before|)
      && m[16..] == if n > 0 then e.before[off..off + n] else []
  {
    ServedInside(s, t, unique, off, size, server.fsize);
    var n := if size < server.fsize - off then size else server.fsize - off;
    var e := t.commits[|s.commits|];
    var data := if n > 0 then e.before[off..off + n] else [];
    LongHeader(16 + n, unique, data);
    assert (OutHeader(16 + n, 0, unique) + data)[16..] == data;
  }

  /** A header whose length field holds the length of the message, as far as 32 bits do. */
  ghost predicate HeaderIsLong(m: seq<byte>, unique: nat) {
    |m| >= 16 && Get32(m, 0) == |m| % TWO32 && Get32(m, 4) == 0 && Get64(m, 8) == unique
  }

  lemma LongHeader(len: nat, unique: nat, rest: seq<byte>)
    requires len == 16 + |rest| && unique < TWO64
    ensures HeaderIsLong(OutHeader(len, 0, unique) + rest, unique)
  {
    var a, b, c := Put32(len), Put32(0), Put64(unique);
    var m := OutHeader(len, 0, unique) + rest;
    assert m == a + b + c + rest;
    assert m[0..4] == a && m[4..8] == b && m[8..16] == c;
  }

  /**
    WRITE to the file, opcode 16 and node 3, of as many bytes as its size, at byte 56, says, taken
    whole: the message is fuse_write_out with that size, and the file got the bytes behind the first
    80 at the offset at byte 48, and kept all others.
   */
  lemma WriteAnswer(s: Slot, t: Slot, server: Server, c: Course)
    requires |s.scratch| == SCRATCH_BUF_SIZE && Answered(s, t, server, c)
    requires Get32(t.request, 4) == 16 && Get64(t.request, 16) == 3
    requires |t.request| >= 80 && |t.request| == 80 + Get32(t.request, 56) && c.moved == Get32(t.request, 56)
    ensures t.pipe == [] && |Added(s, t)| == 1 && |t.commits| == |s.commits| + 1
    ensures var r, m, e := t.request, Added(s, t)[0], t.commits[|s.commits|];
      var off, size := Get64(r, 48), Get32(r, 56);
      && |m| == 24 && HeaderIs(m, 0, Get64(r, 8)) && Get32(m, 16) == size && Get32(m, 20) == 0
      && (size > 0 ==> off + size <= |e.after| && e.after[off..off + size] == r[80..])
      && (forall k :: 0 <= k < |e.before| && !(off <= k < off + size) ==> k < |e.after| && e.after[k] == e.before[k])
      && |e.after| == if size > 0 && off + size > |e.before| then off + size else |e.before|
  {
    var r := t.request;
    FullWriteIsServed(s, t, server, c);
    ServedWrite(s.(pipe := r[80..]), t, Unique(r), Get64(r, 48), Get32(r, 56));
  }

  lemma ServedWrite(s: Slot, t: Slot, unique: nat, off: nat, size: nat)
    requires WriteServed(s, t, unique, off, size) && unique < TWO64 && size < TWO32
    ensures |Added(s, t)| == 1 && |t.commits| == |s.commits| + 1
    ensures var m, e := Added(s, t)[0], t.commits[|s.commits|];
      && |m| == 24 && HeaderIs(m, 0, unique) && Get32(m, 16) == size && Get32(m, 20) == 0
      && e.after == Overwrite(e.before, off, s.pipe)
  {
    WriteReplyFields(unique, size);
    assert Added(s, t) == [WriteReply(unique, size)];
  }

  lemma WriteReplyFields(unique: nat, size: nat)
    requires unique < TWO64 && size < TWO32
    ensures var m := WriteReply(unique, size);
      |m| == 24 && HeaderIs(m, 0, unique) && Get32(m, 16) == size && Get32(m, 20) == 0
  {
    var rest := Put32(size) + Put32(0);
    GoodHeader(24, unique, rest);
    var m := OutHeader(24, 0, unique) + rest;
    assert m[16..20] == Put32(size) && m[20..24] == Put32(0);
  }

  /**
    A WRITE, opcode 16, that was not served is answered behind what is left of its payload: with error 2
    for another node than 3, 22 for a length field that is not its own, the negated result of the
    splice if that failed, and the number of bytes taken if it was short. As many bytes as the answer
    has go out, the payload first; the rest stays in the pipe.
   */
  lemma UnservedWriteAnswer(s: Slot, t: Slot, server: Server, c: Course) returns (left: seq<byte>, m: seq<byte>)
    requires |s.scratch| == SCRATCH_BUF_SIZE && Answered(s, t, server, c)
    requires Get32(t.request, 4) == 16 && |t.request| > 80
    requires Get64(t.request, 16) != 3 || |t.request| != 80 + Get32(t.request, 56) || c.moved != Get32(t.request, 56)
    ensures Added(s, t) == [(left + m)[..|m|]] && t.pipe == (left + m)[|m|..]
    ensures var r := t.request;
      var node, size, unique := Get64(r, 16), Get32(r, 56), Get64(r, 8);
      if node != 3 then left == r[80..] && |m| == 16 && HeaderIs(m, 2, unique)
      else if |r| != 80 + size then left == r[80..] && |m| == 16 && HeaderIs(m, 22, unique)
      else if c.moved < 0 then
        left == r[80..] && |m| == 16 && Get32(m, 0) == 16 && Get32(m, 4) == c.moved % TWO32 && Get64(m, 8) == unique
      else
        && c.moved < size && left == r[80 + c.moved..]
        && |m| == 24 && HeaderIs(m, 0, unique) && Get32(m, 16) == c.moved && Get32(m, 20) == 0
  {
    var r := t.request;
    var node, size, unique := Get64(r, 16), Get32(r, 56), Get64(r, 8);
    WriteOf(s, t, server, c);
    left := r[80..];
    if node != 3 {
      m := OutHeader(16, -ENOENT, unique);
      BareHeader(ENOENT, unique);
    } else if |r| != 80 + size {
      m := OutHeader(16, -EINVAL, unique);
      BareHeader(EINVAL, unique);
    } else if c.moved < 0 {
      m := OutHeader(16, c.moved, unique);
      ErrorFields(c.moved, unique);
    } else {
      left := r[80..][c.moved..];
      m := WriteReply(unique, c.moved);
      WriteReplyFields(unique, c.moved);
    }
  }

  lemma ErrorFields(error: int, unique: nat)
    requires unique < TWO64
    ensures var m := OutHeader(16, error, unique);
      Get32(m, 0) == 16 && Get32(m, 4) == error % TWO32 && Get64(m, 8) == unique
  {
    var a, b, c := Put32(16), Put32(error), Put64(unique);
    var m := OutHeader(16, error, unique);
    assert m == a + b + c;
    assert m[0..4] == a && m[4..8] == b && m[8..16] == c;
  }

  /** READ of another node than 3, opcode 15: error 2, if the bytes that lie in the length field say 16. */
  lemma StrayReadAnswer(s: Slot, t: Slot, server: Server, c: Course)
    requires |s.scratch| == SCRATCH_BUF_SIZE && Answered(s, t, server, c)
    requires Get32(t.request, 4) == 15 && Get64(t.request, 16) != 3
    ensures |t.request| == 80
    ensures (if c.initRead == 80 then Get32(s.scratch, 0) else Get32(t.request, 40)) == 16 ==>
      |Added(s, t)| == 1 && |Added(s, t)[0]| == 16 && HeaderIs(Added(s, t)[0], 2, Get64(t.request, 8))
  {
    StrayReadRight(s, t, server, c);
    BareHeader(ENOENT, Unique(t.request));
  }
}
