/** Bytes, little-endian fields, fixed-width wrap-around and bit masks. */
module Bytes {

  type byte = x: int | 0 <= x < 256

  const TWO32: nat := 0x1_0000_0000
  const TWO64: nat := 0x1_0000_0000_0000_0000

  function Wrap32(x: int): nat { x % TWO32 }

  function Wrap64(x: int): nat { x % TWO64 }

  /** 256 to the power n. */
  function Pow256(n: nat): (p: nat)
    ensures p > 0
  {
    if n == 0 then 1 else 256 * Pow256(n - 1)
  }

  /** Byte i of v, counted from the least significant one. */
  function ByteAt(v: nat, i: nat): byte {
    if i == 0 then v % 256 else ByteAt(v / 256, i - 1)
  }

  /** The n least significant bytes of v, lowest first: how a field of n bytes lies in memory. */
  function LE(v: nat, n: nat): (r: seq<byte>)
    ensures |r| == n
  {
    seq(n, i requires i >= 0 => ByteAt(v, i))
  }

  function UnLE(s: seq<byte>): nat {
    if s == [] then 0 else s[0] + 256 * UnLE(s[1..])
  }

  lemma {:induction false} UnLEBound(s: seq<byte>)
    ensures UnLE(s) < Pow256(|s|)
  {
    if s != [] {
      UnLEBound(s[1..]);
    }
  }

  lemma LETail(v: nat, n: nat)
    requires n > 0
    ensures LE(v, n) == [v % 256] + LE(v / 256, n - 1)
  {
  }

  /** Decoding an encoded value gives it back, cut to the width of the field. */
  lemma {:induction false} DecodeEncode(v: nat, n: nat)
    requires v < Pow256(n)
    ensures UnLE(LE(v, n)) == v
  {
    if n > 0 {
      assert v / 256 < Pow256(n - 1);
      DecodeEncode(v / 256, n - 1);
      LETail(v, n);
      assert LE(v, n)[1..] == LE(v / 256, n - 1);
    }
  }

  lemma {:induction false} EncodeDecode(s: seq<byte>)
    ensures LE(UnLE(s), |s|) == s
  {
    if s != [] {
      EncodeDecode(s[1..]);
      var v := UnLE(s);
      assert v % 256 == s[0] && v / 256 == UnLE(s[1..]);
      LETail(v, |s|);
    }
  }

  lemma Widths()
    ensures Pow256(1) == 256 && Pow256(2) == 0x1_0000 && Pow256(4) == TWO32 && Pow256(8) == TWO64
  {
    assert Pow256(3) == 0x100_0000;
    assert Pow256(5) == 256 * TWO32 && Pow256(6) == 0x1_0000 * TWO32 && Pow256(7) == 0x100_0000 * TWO32;
  }

  /** The 32-bit field at offset at. */
  function Get32(s: seq<byte>, at: nat): (v: nat)
    requires at + 4 <= |s|
    ensures v < TWO32
  {
    Widths();
    UnLEBound(s[at..at + 4]);
    UnLE(s[at..at + 4])
  }

  /** The 64-bit field at offset at. */
  function Get64(s: seq<byte>, at: nat): (v: nat)
    requires at + 8 <= |s|
    ensures v < TWO64
  {
    Widths();
    UnLEBound(s[at..at + 8]);
    UnLE(s[at..at + 8])
  }

  /** The lowest byte of a field comes first. */
  lemma LittleEndian(s: seq<byte>, at: nat)
    requires at + 4 <= |s|
    ensures Get32(s, at) ==
      s[at] as int + 0x100 * (s[at + 1] as int) + 0x1_0000 * (s[at + 2] as int) + 0x100_0000 * (s[at + 3] as int)
    ensures at + 8 <= |s| ==> Get64(s, at) == Get32(s, at) + TWO32 * Get32(s, at + 4)
  {
    FourBytes(s[at..at + 4]);
    if at + 8 <= |s| {
      var f := s[at..at + 8];
      FourBytes(s[at + 4..at + 8]);
      assert f[4..] == s[at + 4..at + 8];
      assert f[1..][1..][1..][1..] == f[4..];
      assert UnLE(f) == f[0] + 256 * (f[1] + 256 * (f[2] + 256 * (f[3] + 256 * UnLE(f[4..])))) by {
        assert UnLE(f) == f[0] + 256 * UnLE(f[1..]) && UnLE(f[1..]) == f[1] + 256 * UnLE(f[1..][1..]);
        assert UnLE(f[1..][1..]) == f[2] + 256 * UnLE(f[1..][1..][1..]);
      }
    }
  }

  lemma FourBytes(f: seq<byte>)
    requires |f| == 4
    ensures UnLE(f) == f[0] as int + 0x100 * (f[1] as int) + 0x1_0000 * (f[2] as int) + 0x100_0000 * (f[3] as int)
  {
    assert UnLE(f) == f[0] + 256 * UnLE(f[1..]) && UnLE(f[1..]) == f[1] + 256 * UnLE(f[1..][1..]);
    assert UnLE(f[1..][1..]) == f[2] + 256 * UnLE(f[1..][1..][1..]);
    assert UnLE(f[1..][1..][1..]) == f[3];
  }

  /** The bytes of a 32-bit or 64-bit value; a larger value is truncated, a negative one wraps. */
  function Put32(v: int): (r: seq<byte>)
    ensures |r| == 4
    ensures UnLE(r) == Wrap32(v)
  {
    Widths();
    DecodeEncode(Wrap32(v), 4);
    LE(Wrap32(v), 4)
  }

  function Put64(v: int): (r: seq<byte>)
    ensures |r| == 8
    ensures UnLE(r) == Wrap64(v)
  {
    Widths();
    DecodeEncode(Wrap64(v), 8);
    LE(Wrap64(v), 8)
  }

  function Zeros(n: nat): (r: seq<byte>)
    ensures |r| == n && forall i :: 0 <= i < n ==> r[i] == 0
  {
    seq(n, _ => 0)
  }

  lemma {:induction false} ByteOfZero(i: nat)
    ensures ByteAt(0, i) == 0
  {
    if i > 0 {
      ByteOfZero(i - 1);
    }
  }

  /** A zero field is zero bytes. */
  lemma ZeroFields()
    ensures Put64(0) == Zeros(8) && Put32(0) == Zeros(4)
  {
    forall i | 0 <= i < 8
      ensures ByteAt(0, i) == 0
    {
      ByteOfZero(i);
    }
  }

  /** s with the bytes b written over it at offset at. */
  function Patch(s: seq<byte>, at: nat, b: seq<byte>): (r: seq<byte>)
    requires at + |b| <= |s|
    ensures |r| == |s|
  {
    s[..at] + b + s[at + |b|..]
  }

  lemma PatchFacts(s: seq<byte>, at: nat, b: seq<byte>)
    requires at + |b| <= |s|
    ensures forall i :: at <= i < at + |b| ==> Patch(s, at, b)[i] == b[i - at]
    ensures forall i :: 0 <= i < |s| && !(at <= i < at + |b|) ==> Patch(s, at, b)[i] == s[i]
  {
  }

  /** Writing inside what was just written is writing the changed bytes. */
  lemma PatchInside(s: seq<byte>, at: nat, w: seq<byte>, k: nat, b: seq<byte>)
    requires at + |w| <= |s| && k + |b| <= |w|
    ensures Patch(Patch(s, at, w), at + k, b) == Patch(s, at, Patch(w, k, b))
  {
    PatchFacts(s, at, w);
    PatchFacts(Patch(s, at, w), at + k, b);
    PatchFacts(w, k, b);
    PatchFacts(s, at, Patch(w, k, b));
    var l, r := Patch(Patch(s, at, w), at + k, b), Patch(s, at, Patch(w, k, b));
    forall i | 0 <= i < |s|
      ensures l[i] == r[i]
    {
    }
  }

  lemma SubSlice(b: seq<byte>, at: nat, n: nat, lo: nat, hi: nat)
    requires at + n <= |b| && lo <= hi <= n
    ensures b[at..at + n][lo..hi] == b[at + lo..at + hi]
  {
    var a := b[at..at + n];
    forall i | 0 <= i < hi - lo
      ensures a[lo..hi][i] == b[at + lo..at + hi][i]
    {
    }
  }

  /** A prefix of `want` grows by what is written behind it. */
  lemma PatchGrows(b: seq<byte>, done: nat, got: seq<byte>, want: seq<byte>)
    requires done + |got| <= |b| && done + |got| <= |want|
    requires b[..done] == want[..done] && got == want[done..done + |got|]
    ensures Patch(b, done, got)[..done + |got|] == want[..done + |got|]
  {
  }

  /** A slice that the written range does not meet is not changed. */
  lemma PatchFrame(s: seq<byte>, at: nat, b: seq<byte>, lo: nat, hi: nat)
    requires at + |b| <= |s| && lo <= hi <= |s|
    requires hi <= at || at + |b| <= lo
    ensures Patch(s, at, b)[lo..hi] == s[lo..hi]
  {
  }

  // ------------------------------------------------------------- bit masks

  function Pow2(k: nat): (p: nat)
    ensures p > 0
  {
    if k == 0 then 1 else 2 * Pow2(k - 1)
  }

  /** Bitwise and. */
  function And(x: nat, y: nat): nat {
    if x == 0 || y == 0 then 0
    else 2 * And(x / 2, y / 2) + (if x % 2 == 1 && y % 2 == 1 then 1 else 0)
  }

  /** Bitwise or. */
  function Or(x: nat, y: nat): nat
    decreases x + y
  {
    if x == 0 && y == 0 then 0
    else 2 * Or(x / 2, y / 2) + (if x % 2 == 1 || y % 2 == 1 then 1 else 0)
  }

  lemma MulAtLeast(m: int, d: int)
    requires m > 0 && d >= 1
    ensures m * d >= m
  {
  }

  /** Quotient and remainder are the only way to write x over the divisor m. */
  lemma DivModUnique(x: int, m: int, q: int, r: int)
    requires m > 0 && x == m * q + r && 0 <= r < m
    ensures x % m == r && x / m == q
  {
    var q2, r2 := x / m, x % m;
    assert x == m * q2 + r2 && 0 <= r2 < m;
    SameQuotient(m, q, r, q2, r2);
  }

  lemma SameQuotient(m: int, q: int, r: int, q2: int, r2: int)
    requires 0 <= r < m && 0 <= r2 < m && m * q + r == m * q2 + r2
    ensures q == q2 && r == r2
  {
    assert m * (q - q2) == r2 - r;
    if q - q2 >= 1 {
      MulAtLeast(m, q - q2);
    } else if q2 - q >= 1 {
      assert m * (q2 - q) == r - r2;
      MulAtLeast(m, q2 - q);
    }
  }

  lemma ModTwice(x: nat, m: nat)
    requires m > 0
    ensures x % (2 * m) == 2 * ((x / 2) % m) + x % 2
  {
    var h := x / 2;
    var q, r := h / m, h % m;
    assert h == m * q + r && 0 <= r < m;
    var lo := 2 * r + x % 2;
    assert x == (2 * m) * q + lo by {
      assert (2 * m) * q == 2 * (m * q);
    }
    DivModUnique(x, 2 * m, q, lo);
  }

  /** Masking with 2^k - 1 is the remainder modulo 2^k. */
  lemma {:induction false} MaskIsMod(x: nat, k: nat)
    ensures And(x, Pow2(k) - 1) == x % Pow2(k)
  {
    if x == 0 || k == 0 {
    } else {
      var m := Pow2(k - 1);
      MaskIsMod(x / 2, k - 1);
      ModTwice(x, m);
      AndDouble(x, m - 1, 1);
      assert 2 * (m - 1) + 1 == Pow2(k) - 1;
      var h := x / 2;
      assert And(x, Pow2(k) - 1) == 2 * (h % m) + x % 2;
    }
  }

  /** One step of the definition of And, for a mask written as 2 * h + b. */
  lemma AndDouble(x: nat, h: nat, b: nat)
    requires b < 2
    ensures And(x, 2 * h + b) == 2 * And(x / 2, h) + (if x % 2 == 1 && b == 1 then 1 else 0)
  {
    assert (2 * h + b) / 2 == h && (2 * h + b) % 2 == b;
  }

  /** Masking a w-bit number with the complement of 2^k - 1 rounds it down to a multiple of 2^k. */
  lemma {:induction false} MaskRoundsDown(x: nat, k: nat, w: nat)
    requires k <= w && x < Pow2(w)
    ensures Pow2(k) <= Pow2(w)
    ensures And(x, Pow2(w) - Pow2(k)) == x - x % Pow2(k)
  {
    Pow2Monotone(k, w);
    if k == 0 {
      AndAll(x, w);
    } else {
      var m, h, d := Pow2(k - 1), x / 2, Pow2(w - 1) - Pow2(k - 1);
      assert Pow2(k) == 2 * m && Pow2(w) - Pow2(k) == 2 * d;
      assert And(h, d) == h - h % m by {
        MaskRoundsDown(h, k - 1, w - 1);
      }
      AndDouble(x, d, 0);
      assert And(x, 2 * d) == 2 * And(h, d);
      RoundedTwice(x, m, And(h, d));
    }
  }

  /** Rounding down to a multiple of 2m, from rounding the half down to a multiple of m. */
  lemma RoundedTwice(x: nat, m: nat, a: nat)
    requires m > 0 && a == x / 2 - x / 2 % m
    ensures 2 * a == x - x % (2 * m)
  {
    ModTwice(x, m);
  }

  lemma {:induction false} AndAll(x: nat, w: nat)
    requires x < Pow2(w)
    ensures And(x, Pow2(w) - 1) == x
  {
    if x > 0 {
      AndAll(x / 2, w - 1);
    }
  }

  /** Two numbers of k bits or-ed have k bits. */
  lemma {:induction false} OrBelow(x: nat, y: nat, k: nat)
    requires x < Pow2(k) && y < Pow2(k)
    ensures Or(x, y) < Pow2(k)
  {
    if k > 0 {
      OrBelow(x / 2, y / 2, k - 1);
    }
  }

  lemma {:induction false} Pow2Monotone(j: nat, k: nat)
    requires j <= k
    ensures Pow2(j) <= Pow2(k)
  {
    if j < k {
      Pow2Monotone(j, k - 1);
    }
  }

  lemma {:induction false} Pow2Add(j: nat, k: nat)
    ensures Pow2(j + k) == Pow2(j) * Pow2(k)
  {
    if k > 0 {
      Pow2Add(j, k - 1);
      assert Pow2(j + k) == 2 * (Pow2(j) * Pow2(k - 1));
    }
  }

  lemma Pow2Of32()
    ensures Pow2(32) == TWO32
  {
    assert Pow2(8) == 256;
    Pow2Add(8, 8);
    Pow2Add(16, 16);
  }

  lemma Pow2Of64()
    ensures Pow2(64) == TWO64
  {
    Pow2Of32();
    Pow2Add(32, 32);
  }
}
