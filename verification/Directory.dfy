/** Directory entries: the encoder add_dir, and the parser a reader of READDIR replies runs. */
module Directory {
  import opened Bytes
  import opened FuseKernel

  const NAME_OFFSET: nat := 24   // offsetof(struct fuse_dirent, name)

  datatype AnyEntry = Entry(ino: nat, off: nat, kind: nat, name: seq<byte>) {
    predicate Fits() {
      ino < TWO64 && off < TWO64 && kind < TWO32 && |name| < TWO32
    }
  }

  /** An entry whose fields fit their widths. */
  type Entry = e: AnyEntry | e.Fits() witness Entry(0, 0, 0, [])

  /** FUSE_DIRENT_ALIGN, with its mask. */
  function DirentAlign(x: nat): nat {
    And(x + 7, TWO64 - 8)
  }

  /** x rounded up to a multiple of 8, and the FUSE_DIRENT_SIZE of a record with a name of n bytes. */
  function Up8(x: nat): (r: nat)
    ensures r % 8 == 0 && x <= r < x + 8
  {
    (x + 7) / 8 * 8
  }

  function RecordSize(n: nat): nat { Up8(NAME_OFFSET + n) }

  /** The mask form rounds up to a multiple of 8, as round_up does. */
  lemma AlignIsRoundUp(x: nat)
    requires x + 7 < TWO64
    ensures DirentAlign(x) == RoundUp(x, 8) == Up8(x)
  {
    assert Pow2(3) == 8;
    Pow2Of64();
    MaskRoundsDown(x + 7, 3, 64);
  }

  /** One record: the fixed part, the name, and zeros up to the next multiple of 8. */
  function Encode(e: Entry): (r: seq<byte>)
    ensures |r| % 8 == 0 && NAME_OFFSET + |e.name| <= |r| < NAME_OFFSET + |e.name| + 8
  {
    Put64(e.ino) + Put64(e.off) + Put32(|e.name|) + Put32(e.kind) + e.name
    + Zeros(RecordSize(|e.name|) - NAME_OFFSET - |e.name|)
  }

  ghost function EncodeAll(es: seq<Entry>): (r: seq<byte>)
  {
    if es == [] then [] else Encode(es[0]) + EncodeAll(es[1..])
  }

  /** Step over the records by their FUSE_DIRENT_SIZE; a cut record ends the list. */
  function Parse(s: seq<byte>): seq<Entry> {
    if |s| < NAME_OFFSET then []
    else
      var namelen := Get32(s, 16);
      var size := RecordSize(namelen);
      if size > |s| then []
      else
        [Entry(Get64(s, 0), Get64(s, 8), Get32(s, 20), s[NAME_OFFSET..NAME_OFFSET + namelen])] + Parse(s[size..])
  }

  /** Six pieces, the first four of the widths of the fixed fields, and where they lie in their concatenation. */
  lemma Pieces(a: seq<byte>, b: seq<byte>, c: seq<byte>, d: seq<byte>, name: seq<byte>, tail: seq<byte>)
    requires |a| == 8 && |b| == 8 && |c| == 4 && |d| == 4
    ensures var s := a + b + c + d + name + tail;
      && s[0..8] == a && s[8..16] == b && s[16..20] == c && s[20..24] == d && s[24..24 + |name|] == name
  {
  }

  /** The fields of a record, read back from a list that starts with it. */
  lemma FieldsReadBack(e: Entry, rest: seq<byte>)
    ensures var s := Encode(e) + rest;
      && Get64(s, 0) == e.ino && Get64(s, 8) == e.off && Get32(s, 16) == |e.name| && Get32(s, 20) == e.kind
      && s[NAME_OFFSET..NAME_OFFSET + |e.name|] == e.name
  {
    var s := Encode(e) + rest;
    var a, b, c, d := Put64(e.ino), Put64(e.off), Put32(|e.name|), Put32(e.kind);
    var z := Zeros(RecordSize(|e.name|) - NAME_OFFSET - |e.name|);
    Pieces(a, b, c, d, e.name, z + rest);
    assert s == a + b + c + d + e.name + (z + rest);
  }

  lemma ParseFirst(e: Entry, rest: seq<byte>)
    ensures Parse(Encode(e) + rest) == [e] + Parse(rest)
  {
    FieldsReadBack(e, rest);
    var s := Encode(e) + rest;
    assert s[RecordSize(|e.name|)..] == rest;
  }

  /** The reader recovers exactly the encoded entries, in order. */
  lemma {:induction false} RoundTrip(es: seq<Entry>)
    ensures Parse(EncodeAll(es)) == es
  {
    if es != [] {
      var rest := EncodeAll(es[1..]);
      RoundTrip(es[1..]);
      ParseFirst(es[0], rest);
      assert EncodeAll(es) == Encode(es[0]) + rest;
      assert es == [es[0]] + es[1..];
    }
  }

  lemma SumAligned(a: nat, b: nat)
    requires a % 8 == 0 && b % 8 == 0
    ensures (a + b) % 8 == 0
  {
  }

  lemma {:induction false} WholeRecords(es: seq<Entry>)
    ensures |EncodeAll(es)| % 8 == 0
  {
    if es != [] {
      WholeRecords(es[1..]);
      SumAligned(|Encode(es[0])|, |EncodeAll(es[1..])|);
    }
  }

  /** Records put one after another, each behind all earlier ones. */
  lemma {:induction false} EncodeAllAppend(es: seq<Entry>, e: Entry)
    ensures EncodeAll(es + [e]) == EncodeAll(es) + Encode(e)
  {
    var all := es + [e];
    if es == [] {
      assert all[0] == e && all[1..] == [];
      assert EncodeAll(all) == Encode(e) + EncodeAll([]);
    } else {
      EncodeAllAppend(es[1..], e);
      assert all[0] == es[0] && all[1..] == es[1..] + [e];
      Associate(Encode(es[0]), EncodeAll(es[1..]), Encode(e));
    }
  }

  lemma Associate(a: seq<byte>, b: seq<byte>, c: seq<byte>)
    ensures a + (b + c) == a + b + c
  {
  }

  /** The i-th record starts at a multiple of 8 if the list does. */
  lemma RecordsAligned(es: seq<Entry>, i: nat, start: nat)
    requires i <= |es| && start % 8 == 0
    ensures (start + |EncodeAll(es[..i])|) % 8 == 0
    ensures |EncodeAll(es[..i])| <= |EncodeAll(es)| && EncodeAll(es)[..|EncodeAll(es[..i])|] == EncodeAll(es[..i])
  {
    WholeRecords(es[..i]);
    SumAligned(start, |EncodeAll(es[..i])|);
    EncodePrefix(es, i);
  }

  lemma PrefixOfPrefix(a: seq<byte>, b: seq<byte>, all: seq<byte>)
    requires |a + b| <= |all| && all[..|a + b|] == a + b
    ensures all[..|a|] == a
  {
    assert all[..|a|] == (a + b)[..|a|];
  }

  lemma {:induction false} EncodePrefix(es: seq<Entry>, i: nat)
    requires i <= |es|
    ensures |EncodeAll(es[..i])| <= |EncodeAll(es)| && EncodeAll(es)[..|EncodeAll(es[..i])|] == EncodeAll(es[..i])
    decreases |es| - i
  {
    if i == |es| {
      assert es[..i] == es;
    } else {
      EncodePrefix(es, i + 1);
      assert es[..i + 1] == es[..i] + [es[i]];
      EncodeAllAppend(es[..i], es[i]);
      PrefixOfPrefix(EncodeAll(es[..i]), Encode(es[i]), EncodeAll(es));
    }
  }

  /** A growing byte vector. */
  class ByteVector {
    var data: seq<byte>

    constructor (n: nat)
      ensures data == Zeros(n)
    {
      data := Zeros(n);
    }

    method Resize(n: nat)
      requires n >= |data|
      modifies this
      ensures data == old(data) + Zeros(n - |old(data)|)
    {
      data := data + Zeros(n - |data|);
    }

    method Poke(at: nat, b: seq<byte>)
      requires at + |b| <= |data|
      modifies this
      ensures data == Patch(old(data), at, b)
    {
      data := Patch(data, at, b);
    }
  }

  method AlignedSize(x: nat) returns (size: nat)
    requires x + 7 < TWO64
    ensures size == Up8(x)
  {
    AlignIsRoundUp(x);
    size := DirentAlign(x);
  }

  /** add_dir: the record of one entry behind what the vector held, which is not touched. */
  method AddDir(buf: ByteVector, name: seq<byte>, off: nat, ino: nat, mode: nat)
    requires off < TWO64 && ino < TWO64 && |name| < TWO32
    modifies buf
    ensures buf.data == old(buf.data) + Encode(Entry(ino, off, (mode / 0x1000) % 16, name))
  {
    var bsize := AlignedSize(NAME_OFFSET + |name|);
    StoreRecord(buf, Put64(ino), Put32(|name|), Put64(off), Put32((mode / 0x1000) % 16), name,
                Zeros(bsize - NAME_OFFSET - |name|));
  }

  method StoreRecord(buf: ByteVector, ino: seq<byte>, len: seq<byte>, off: seq<byte>, kind: seq<byte>,
                     name: seq<byte>, padding: seq<byte>)
    requires |ino| == 8 && |len| == 4 && |off| == 8 && |kind| == 4
    modifies buf
    ensures buf.data == old(buf.data) + (ino + off + len + kind + name + padding)
  {
    var start := |buf.data|;
    buf.Resize(start + 24 + |name| + |padding|);
    buf.Poke(start, ino);
    buf.Poke(start + 16, len);
    buf.Poke(start + 8, off);
    buf.Poke(start + 20, kind);
    buf.Poke(start + 24, name);
    buf.Poke(start + 24 + |name|, padding);
    RecordInFields(old(buf.data), ino, len, off, kind, name, padding);
  }

  /** The six stores of add_dir into the zeroed new space. */
  lemma RecordInFields(before: seq<byte>, ino: seq<byte>, len: seq<byte>, off: seq<byte>, kind: seq<byte>,
                       name: seq<byte>, zeros: seq<byte>)
    requires |ino| == 8 && |len| == 4 && |off| == 8 && |kind| == 4
    ensures
      var n, s := |before|, before + Zeros(24 + |name| + |zeros|);
      var t := Patch(Patch(Patch(Patch(s, n, ino), n + 16, len), n + 8, off), n + 20, kind);
      Patch(Patch(t, n + 24, name), n + 24 + |name|, zeros) == before + (ino + off + len + kind + name + zeros)
  {
    var n, s := |before|, before + Zeros(24 + |name| + |zeros|);
    PatchFacts(s, n, ino);
    var a := Patch(s, n, ino);
    PatchFacts(a, n + 16, len);
    var b := Patch(a, n + 16, len);
    PatchFacts(b, n + 8, off);
    var c := Patch(b, n + 8, off);
    PatchFacts(c, n + 20, kind);
    var d := Patch(c, n + 20, kind);
    PatchFacts(d, n + 24, name);
    PatchFacts(Patch(d, n + 24, name), n + 24 + |name|, zeros);
  }

  /** What a READDIR at the given offset lists: everything at offset 0, nothing behind it. */
  function Listed(offset: nat): seq<Entry> {
    if offset == 0 then
      [Entry(2, offset + 1, 4, [46]), Entry(3, offset + 2, 4, [46, 46]), Entry(4, offset + 3, 4, VolumeName())]
    else []
  }

  ghost function ReaddirReply(unique: nat, offset: nat): seq<byte> {
    OutHeader(16 + |EncodeAll(Listed(offset))|, 0, unique) + EncodeAll(Listed(offset))
  }

  lemma EncodeThree(a: Entry, b: Entry, c: Entry)
    ensures EncodeAll([a, b, c]) == Encode(a) + Encode(b) + Encode(c)
  {
    EncodeAllAppend([], a);
    EncodeAllAppend([a], b);
    EncodeAllAppend([a, b], c);
    assert [] + [a] == [a] && [a] + [b] == [a, b] && [a, b] + [c] == [a, b, c];
  }

  lemma ThreeRecords(a: Entry, b: Entry, c: Entry)
    ensures |EncodeAll([a, b, c])| == RecordSize(|a.name|) + RecordSize(|b.name|) + RecordSize(|c.name|)
  {
    EncodeThree(a, b, c);
  }

  lemma ListingSize(offset: nat)
    ensures |EncodeAll(Listed(offset))| == if offset == 0 then 96 else 0
  {
    if offset == 0 {
      var a, b, c := Entry(2, offset + 1, 4, [46]), Entry(3, offset + 2, 4, [46, 46]), Entry(4, offset + 3, 4, VolumeName());
      ThreeRecords(a, b, c);
    }
  }

  /** Reading the reply gives the listed entries back; its length field is its length. */
  lemma ReaddirReplyReads(unique: nat, offset: nat)
    ensures Parse(ReaddirReply(unique, offset)[16..]) == Listed(offset)
    ensures Get32(ReaddirReply(unique, offset), 0) == |ReaddirReply(unique, offset)|
    ensures |ReaddirReply(unique, offset)| == if offset == 0 then 112 else 16
  {
    ListingSize(offset);
    RoundTrip(Listed(offset));
    var list := EncodeAll(Listed(offset));
    var n := |list|;
    var r := ReaddirReply(unique, offset);
    assert r == OutHeader(16 + n, 0, unique) + list;
    assert r[16..] == list;
    HeaderLength(16 + n, 0, unique, list);
  }
}
