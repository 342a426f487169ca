/** Byte strings and the little-endian integers of `encoding/binary`. */
module Bytes {

  import opened Wrappers

  type byte = x: int | 0 <= x < 256
  type u16 = x: int | 0 <= x < 0x1_0000
  type u32 = x: int | 0 <= x < 0x1_0000_0000
  type u64 = x: int | 0 <= x < 0x1_0000_0000_0000_0000

  type bytes = seq<byte>

  const MAX_UINT16: int := 0xFFFF
  const MAX_UINT32: int := 0xFFFF_FFFF

  /** Go's unsigned conversions keep the low bits, also of negative numbers. */
  function ToU16(v: int): u16 { v % 0x1_0000 }

  lemma SmallU16(v: int)
    requires 0 <= v <= MAX_UINT16
    ensures ToU16(v) == v
  {
  }

  function ToU32(v: int): u32 { v % 0x1_0000_0000 }

  function Min(a: int, b: int): int { if a < b then a else b }

  /** The byte of `v` with weight 256^i. */
  function Digit(v: int, i: nat): byte
    decreases i
  {
    if i == 0 then v % 256 else Digit(v / 256, i - 1)
  }

  /** `n` times `b`, by repeated addition. */
  function Times(n: nat, b: nat): nat {
    if n == 0 then 0 else Times(n - 1, b) + b
  }

  /** The low `n` bytes of `v`, least significant first. */
  function LE(n: nat, v: int): (s: bytes)
    ensures |s| == n
  {
    seq(n, (i: nat) => Digit(v, i))
  }

  lemma {:induction false} ZeroDigit(i: nat)
    ensures Digit(0, i) == 0
    decreases i
  {
    if i > 0 {
      ZeroDigit(i - 1);
    }
  }

  lemma LEStep(n: nat, v: int)
    requires n > 0
    ensures LE(n, v) == [v % 256] + LE(n - 1, v / 256)
  {
  }

  lemma SmallTwoBytes(v: byte)
    ensures LE(2, v) == [v, 0]
  {
    LEStep(2, v);
    LEStep(1, 0);
    assert LE(0, 0) == [] && v % 256 == v && v / 256 == 0;
  }

  /** The value of the bytes from position `i` on. */
  function UnLEFrom(s: bytes, i: nat): nat
    requires i <= |s|
    decreases |s| - i
  {
    if i == |s| then 0 else s[i] + 256 * UnLEFrom(s, i + 1)
  }

  function UnLE(s: bytes): nat {
    UnLEFrom(s, 0)
  }

  lemma {:induction false} UnLETail(s: bytes, t: bytes, i: nat)
    requires i < |s| && t == s[1..]
    ensures UnLEFrom(t, i) == UnLEFrom(s, i + 1)
    decreases |s| - i
  {
    if i < |t| {
      UnLETail(s, t, i + 1);
    }
  }

  lemma UnLEStep(s: bytes)
    requires s != []
    ensures UnLE(s) == s[0] + 256 * UnLE(s[1..])
  {
    UnLETail(s, s[1..], 0);
  }

  function Pow256(n: nat): (p: nat)
    ensures p >= 1
  {
    if n == 0 then 1 else 256 * Pow256(n - 1)
  }

  lemma {:induction false} UnLEBound(s: bytes)
    ensures UnLE(s) < Pow256(|s|)
  {
    if s != [] {
      UnLEStep(s);
      UnLEBound(s[1..]);
    }
  }

  /** Reading back what was written, for every value that fits. */
  lemma {:induction false} ReadWritten(n: nat, v: int)
    requires 0 <= v < Pow256(n)
    ensures UnLE(LE(n, v)) == v
  {
    if n > 0 {
      ReadWritten(n - 1, v / 256);
      LEStep(n, v);
      UnLEStep(LE(n, v));
      assert LE(n, v)[1..] == LE(n - 1, v / 256);
    }
  }

  /** What the `n` bytes leave out of `v`; it is -1 for small negative numbers. */
  function Overflow(n: nat, v: int): int
    decreases n
  {
    if n == 0 then v else Overflow(n - 1, v / 256)
  }

  /** Numbers that do not fit are written modulo the range. */
  lemma {:induction false} ReadTruncated(n: nat, v: int)
    ensures v == UnLE(LE(n, v)) + Overflow(n, v) * Pow256(n)
  {
    if n > 0 {
      ReadTruncated(n - 1, v / 256);
      LEStep(n, v);
      UnLEStep(LE(n, v));
      assert LE(n, v)[1..] == LE(n - 1, v / 256);
      var q := Overflow(n, v);
      assert v == 256 * (UnLE(LE(n - 1, v / 256)) + q * Pow256(n - 1)) + v % 256;
      assert 256 * (q * Pow256(n - 1)) == q * Pow256(n);
    }
  }

  /** Writing back what was read. */
  lemma {:induction false} WriteRead(s: bytes)
    ensures LE(|s|, UnLE(s)) == s
  {
    if s != [] {
      WriteRead(s[1..]);
      UnLEStep(s);
      LEStep(|s|, UnLE(s));
      assert s == [s[0]] + s[1..];
    }
  }

  lemma Widths()
    ensures Pow256(2) == 0x1_0000 && Pow256(4) == 0x1_0000_0000 && Pow256(8) == 0x1_0000_0000_0000_0000
  {
    assert Pow256(1) == 256;
    assert Pow256(3) == 256 * Pow256(2);
    assert Pow256(5) == 256 * Pow256(4);
    assert Pow256(6) == 256 * Pow256(5);
    assert Pow256(7) == 256 * Pow256(6);
  }

  lemma ReadWritten2(v: int)
    requires 0 <= v < 0x1_0000
    ensures UnLE(LE(2, v)) == v
  {
    Widths();
    ReadWritten(2, v);
  }

  lemma ReadWritten4(v: int)
    requires 0 <= v < 0x1_0000_0000
    ensures UnLE(LE(4, v)) == v
  {
    Widths();
    ReadWritten(4, v);
  }

  lemma ReadWritten8(v: int)
    requires 0 <= v < 0x1_0000_0000_0000_0000
    ensures UnLE(LE(8, v)) == v
  {
    Widths();
    ReadWritten(8, v);
  }

  function U16(b: bytes): (v: u16)
    requires |b| == 2
  {
    Widths();
    UnLEBound(b);
    UnLE(b)
  }

  function U32(b: bytes): (v: u32)
    requires |b| == 4
  {
    Widths();
    UnLEBound(b);
    UnLE(b)
  }

  function U64(b: bytes): (v: u64)
    requires |b| == 8
  {
    Widths();
    UnLEBound(b);
    UnLE(b)
  }

  /** The four bytes at `off` are the signature `sig`, and exist. */
  predicate SignatureAt(s: bytes, off: nat, sig: u32) {
    off + 4 <= |s| && U32(s[off..off + 4]) == sig
  }

  lemma SignatureBytes(s: bytes, off: nat, sig: u32)
    ensures SignatureAt(s, off, sig) <==> off + 4 <= |s| && s[off..off + 4] == LE(4, sig)
  {
    ReadWritten4(sig);
    if off + 4 <= |s| {
      WriteRead(s[off..off + 4]);
    }
  }

  lemma Associate(a: bytes, b: bytes, c: bytes)
    ensures a + b + c == a + (b + c)
  {
  }

  lemma AssociateThree(pre: bytes, a: bytes, b: bytes, c: bytes)
    ensures pre + a + b + c == pre + (a + b + c)
  {
  }

  lemma Middle(pre: bytes, s: bytes, post: bytes)
    ensures (pre + s + post)[|pre|..|pre| + |s|] == s
    ensures (pre + s + post)[|pre| + |s|..] == post
    ensures (pre + s + post)[|pre|..] == s + post
    ensures (pre + s + post)[..|pre|] == pre
  {
  }

  lemma SubSlice(s: bytes, a: nat, b: nat, i: nat, j: nat)
    requires a <= b <= |s| && i <= j <= b - a
    ensures s[a..b][i..j] == s[a + i..a + j]
  {
    assert forall k :: 0 <= k < j - i ==> s[a..b][i..j][k] == s[a + i..a + j][k];
  }

  lemma Onward(s: bytes, a: nat, i: nat, j: nat)
    requires a <= |s| && i <= j <= |s| - a
    ensures s[a..][i..j] == s[a + i..a + j] && s[a..][j..] == s[a + j..]
  {
    assert forall k :: 0 <= k < j - i ==> s[a..][i..j][k] == s[a + i..a + j][k];
  }

  // ---------------------------------------------------------------- exclusive or

  function Pow2(n: nat): nat {
    if n == 0 then 1 else 2 * Pow2(n - 1)
  }

  lemma Powers()
    ensures Pow2(8) == 256 && Pow2(16) == 0x1_0000
  {
    assert Pow2(4) == 16;
    assert Pow2(6) == 64;
    assert Pow2(10) == 1024;
    assert Pow2(12) == 4096;
    assert Pow2(14) == 16384;
  }

  /** Bit `k` is on. */
  predicate Bit(n: nat, k: nat)
    decreases n, k
  {
    if k == 0 then n % 2 == 1 else Bit(n / 2, k - 1)
  }

  /** That is the digit with weight 2^k. */
  lemma {:induction false} BitIs(n: nat, k: nat, q: nat, r: nat)
    requires r < Pow2(k) && n == q * Pow2(k) + r
    ensures Bit(n, k) <==> q % 2 == 1
    decreases k
  {
    if k > 0 {
      TwiceInside(q, Pow2(k - 1));
      BitIs(n / 2, k - 1, q, r / 2);
    }
  }

  lemma TwiceInside(q: nat, p: nat)
    ensures q * (2 * p) == 2 * (q * p)
  {
  }

  /** Exclusive or of the low `n` bits. */
  function XorBits(n: nat, a: nat, b: nat): nat {
    if n == 0 then 0 else (a % 2 + b % 2) % 2 + 2 * XorBits(n - 1, a / 2, b / 2)
  }

  lemma {:induction false} XorBitsFits(n: nat, a: nat, b: nat)
    ensures XorBits(n, a, b) < Pow2(n)
  {
    if n > 0 {
      XorBitsFits(n - 1, a / 2, b / 2);
    }
  }

  lemma {:induction false} XorBitsTwice(n: nat, a: nat, b: nat)
    requires a < Pow2(n)
    ensures XorBits(n, XorBits(n, a, b), b) == a
  {
    if n > 0 {
      var low, high := (a % 2 + b % 2) % 2, XorBits(n - 1, a / 2, b / 2);
      XorBitsTwice(n - 1, a / 2, b / 2);
      XorBitsLow(n, low, high, b);
      assert XorBits(n, a, b) == low + 2 * high;
      BitTwice(a % 2, b % 2);
    }
  }

  lemma BitTwice(a: nat, b: nat)
    requires a < 2 && b < 2
    ensures ((a + b) % 2 + b) % 2 == a
  {
  }

  lemma XorBitsLow(n: nat, low: nat, high: nat, b: nat)
    requires n > 0 && low < 2
    ensures XorBits(n, low + 2 * high, b) == (low + b % 2) % 2 + 2 * XorBits(n - 1, high, b / 2)
  {
    var x := low + 2 * high;
    assert x % 2 == low && x / 2 == high;
  }

  function Xor(a: byte, b: byte): byte {
    Powers();
    XorBitsFits(8, a, b);
    XorBits(8, a, b)
  }

  lemma XorTwice(a: byte, b: byte)
    ensures Xor(Xor(a, b), b) == a
  {
    Powers();
    XorBitsTwice(8, a, b);
  }

  /** Bit by bit: on where exactly one of the two is. */
  lemma {:induction false} XorBitsIff(n: nat, a: nat, b: nat, j: nat)
    requires j < n
    ensures Bit(XorBits(n, a, b), j) <==> (Bit(a, j) <==> !Bit(b, j))
    decreases n
  {
    var low, high := (a % 2 + b % 2) % 2, XorBits(n - 1, a / 2, b / 2);
    LowAndHigh(low, high);
    assert XorBits(n, a, b) == low + 2 * high;
    if j > 0 {
      XorBitsIff(n - 1, a / 2, b / 2, j - 1);
    }
  }

  lemma LowAndHigh(low: nat, high: nat)
    requires low < 2
    ensures (low + 2 * high) % 2 == low && (low + 2 * high) / 2 == high
  {
  }

  lemma XorIff(a: byte, b: byte, j: nat)
    requires j < 8
    ensures Bit(Xor(a, b), j) <==> (Bit(a, j) <==> !Bit(b, j))
  {
    XorBitsIff(8, a, b, j);
  }

  /** Numbers below 2^n with the same low `n` bits are equal, so that determines the exclusive or. */
  lemma {:induction false} SameBits(n: nat, a: nat, b: nat)
    requires a < Pow2(n) && b < Pow2(n) && forall j: nat :: j < n ==> (Bit(a, j) <==> Bit(b, j))
    ensures a == b
  {
    if n > 0 {
      forall j: nat | j < n - 1
        ensures Bit(a / 2, j) <==> Bit(b / 2, j)
      {
        assert Bit(a, j + 1) <==> Bit(b, j + 1);
      }
      SameBits(n - 1, a / 2, b / 2);
      assert Bit(a, 0) <==> Bit(b, 0);
    }
  }

  // ---------------------------------------------------------------- finding a pattern

  predicate SigAt(s: bytes, sig: bytes, i: nat) {
    i + |sig| <= |s| && s[i..i + |sig|] == sig
  }

  /** The first place of `sig` in `s`, from `i` on; None when there is none. */
  function First(s: bytes, sig: bytes, i: nat): (r: Option<nat>)
    ensures r.Some? ==>
            i <= r.value && SigAt(s, sig, r.value) && forall j: nat :: i <= j < r.value ==> !SigAt(s, sig, j)
    ensures r.None? ==> forall j: nat :: i <= j ==> !SigAt(s, sig, j)
    decreases |s| - i
  {
    if i + |sig| > |s| then None
    else if s[i..i + |sig|] == sig then Some(i)
    else First(s, sig, i + 1)
  }
}
