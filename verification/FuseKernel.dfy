/** Record layouts of the FUSE protocol, version 7.31, as bytes on a little-endian 64-bit machine. */
module FuseKernel {
  import opened Bytes

  const FUSE_LOOKUP := 1
  const FUSE_GETATTR := 3
  const FUSE_SETATTR := 4
  const FUSE_OPEN := 14
  const FUSE_READ := 15
  const FUSE_WRITE := 16
  const FUSE_RELEASE := 18
  const FUSE_OPENDIR := 27
  const FUSE_READDIR := 28
  const FUSE_RELEASEDIR := 29

  const IN_HEADER_SIZE: nat := 40
  const OUT_HEADER_SIZE: nat := 16
  const GETATTR_IN_SIZE: nat := 16
  const SETATTR_IN_SIZE: nat := 88
  const OPEN_IN_SIZE: nat := 8
  const READ_IN_SIZE: nat := 40
  const WRITE_IN_SIZE: nat := 40
  const RELEASE_IN_SIZE: nat := 24
  const ATTR_SIZE: nat := 88
  const ATTR_OUT_SIZE: nat := 104
  const ENTRY_OUT_SIZE: nat := 128
  const OPEN_OUT_SIZE: nat := 16
  const WRITE_OUT_SIZE: nat := 8
  const HEADER_BUF_SIZE: nat := 80      // fuse_in_header and fuse_write_in
  const SCRATCH_BUF_SIZE: nat := 4096

  const FUSE_GETATTR_FH := 1
  const FOPEN_DIRECT_IO := 1
  const FOPEN_KEEP_CACHE := 2
  const FOPEN_CACHE_DIR := 8

  const ENOENT := 2
  const EACCES := 13
  const EINVAL := 22
  const ENOSYS := 38
  const ECANCELED := 125

  const DIR_MODE := 0x4000 + 0x1ff    // S_IFDIR with all permissions
  const FILE_MODE := 0x8000 + 0x1ff   // S_IFREG with all permissions

  // ------------------------------------------------- fields of a request

  function Len(req: seq<byte>): nat requires |req| >= 40 { Get32(req, 0) }

  function Opcode(req: seq<byte>): nat requires |req| >= 40 { Get32(req, 4) }

  function Unique(req: seq<byte>): nat requires |req| >= 40 { Get64(req, 8) }

  function NodeId(req: seq<byte>): nat requires |req| >= 40 { Get64(req, 16) }

  /**
    What the kernel promises of a request it hands over whole: its length field is its length, and a
    LOOKUP carries a name.
   */
  predicate WellFormed(req: seq<byte>) {
    |req| >= 40 ==> Len(req) == |req| && (Opcode(req) == FUSE_LOOKUP ==> |req| > 40)
  }

  // ------------------------------------------------- records of replies

  function OutHeader(len: int, error: int, unique: int): (r: seq<byte>)
    ensures |r| == 16
  {
    Put32(len) + Put32(error) + Put64(unique)
  }

  lemma HeaderLength(len: nat, error: int, unique: nat, rest: seq<byte>)
    requires len < TWO32
    ensures Get32(OutHeader(len, error, unique) + rest, 0) == len
  {
    var a, b, c := Put32(len), Put32(error), Put64(unique);
    FirstFour(a, b, c, rest);
  }

  lemma FirstFour(a: seq<byte>, b: seq<byte>, c: seq<byte>, rest: seq<byte>)
    requires |a| == 4
    ensures (a + b + c + rest)[0..4] == a
  {
  }

  function Attr(ino: int, size: int, blocks: int, mode: int, blksize: int): (r: seq<byte>)
    ensures |r| == 88
  {
    Put64(ino) + Put64(size) + Put64(blocks) + Zeros(36) + Put32(mode) + Zeros(16) + Put32(blksize) + Zeros(4)
  }

  function RoundUp(x: nat, multiple: nat): nat
    requires multiple > 0
  {
    ((x + multiple - 1) / multiple) * multiple
  }

  /** What a reply may depend on besides the request. */
  datatype Server = Server(fsize: nat, pageSize: nat)

  function RootAttr(): (r: seq<byte>)
    ensures |r| == 88
  {
    Attr(1, 0, 0, DIR_MODE, 0)
  }

  function VolumeAttr(s: Server): (r: seq<byte>)
    ensures |r| == 88
  {
    Attr(3, s.fsize, RoundUp(s.fsize, 512), FILE_MODE, s.pageSize)
  }

  function AttrOut(dummy: seq<byte>, attr: seq<byte>): (r: seq<byte>) {
    Put64(3600) + Put32(0) + dummy + attr
  }

  /** The whole reply to GETATTR and SETATTR; `dummy` fills the one field no handler writes. */
  function AttrReply(unique: nat, nodeid: nat, s: Server, dummy: seq<byte>): (r: seq<byte>) {
    if nodeid == 1 then OutHeader(120, 0, unique) + AttrOut(dummy, RootAttr())
    else if nodeid == 3 then OutHeader(120, 0, unique) + AttrOut(dummy, VolumeAttr(s))
    else OutHeader(16, -EACCES, unique)
  }

  function EntryOut(nodeid: nat, attr: seq<byte>): (r: seq<byte>) {
    Put64(nodeid) + Put64(0) + Put64(3600) + Put64(3600) + Put32(0) + Put32(0) + attr
  }

  function VolumeName(): seq<byte> { [118, 111, 108, 117, 109, 101] }

  /** The C string at the start of s: everything before the first zero byte. */
  function CString(s: seq<byte>): (r: seq<byte>)
    ensures |r| <= |s| && r == s[..|r|]
    ensures forall i :: 0 <= i < |r| ==> r[i] != 0
    ensures |r| < |s| ==> s[|r|] == 0
  {
    if s == [] || s[0] == 0 then [] else [s[0]] + CString(s[1..])
  }

  function LookupReply(unique: nat, name: seq<byte>, s: Server): (r: seq<byte>) {
    OutHeader(144, 0, unique) +
    (if name == VolumeName() then EntryOut(3, VolumeAttr(s)) else EntryOut(1, RootAttr()))
  }

  /** `padding` fills the one field the handlers do not write. */
  function OpenReply(unique: nat, fh: nat, flags: nat, padding: seq<byte>): (r: seq<byte>) {
    OutHeader(32, 0, unique) + (Put64(fh) + Put32(flags) + padding)
  }

  function WriteReply(unique: nat, size: nat): (r: seq<byte>)
    ensures |r| == 24
  {
    OutHeader(24, 0, unique) + (Put32(size) + Put32(0))
  }

  /** A reply whose length field is right. */
  predicate Framed(msg: seq<byte>) {
    |msg| >= 4 && Get32(msg, 0) == |msg|
  }

  lemma FramedReply(len: nat, error: int, unique: nat, rest: seq<byte>)
    requires len == 16 + |rest| < TWO32
    ensures Framed(OutHeader(len, error, unique) + rest)
    ensures rest == [] ==> Framed(OutHeader(len, error, unique))
  {
    HeaderLength(len, error, unique, rest);
    if rest == [] {
      assert OutHeader(len, error, unique) + rest == OutHeader(len, error, unique);
    }
  }
}
