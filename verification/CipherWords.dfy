/** What the word functions of section 6.1 of APPNOTE 6.3 compute, in other words: the CRC-32 step bit by
    bit, the congruential step, and the mask. */
module CipherWords {
  import opened Bytes
  import opened ZipCrypto

  const POLYNOMIAL: u32 := 0xEDB88320

  /** One step of the CRC-32 register. */
  function CrcShift(k: u32): u32 {
    if k % 2 == 1 then Xor32(k / 2, POLYNOMIAL) else k / 2
  }

  function CrcShifts(k: u32, n: nat): u32 {
    if n == 0 then k else CrcShift(CrcShifts(k, n - 1))
  }

  /** The usual table: eight steps for each byte. */
  function CrcTable(b: byte): u32 {
    CrcShifts(b, 8)
  }

  lemma Xor32Bits(a: u32, b: u32, j: nat)
    requires j < 32
    ensures Bit(Xor32(a, b), j) <==> (Bit(a, j) <==> !Bit(b, j))
  {
    Xor32Is(a, b);
    XorBitsIff(32, a, b, j);
  }

  lemma Xor32Is(a: u32, b: u32)
    ensures Xor32(a, b) == XorBits(32, a, b)
  {
    XorBitsFits(32, a, b);
    Powers();
    PowSum(16, 16);
  }

  lemma {:induction false} PowSum(m: nat, n: nat)
    ensures Pow2(m + n) == Pow2(m) * Pow2(n)
  {
    if m > 0 {
      PowSum(m - 1, n);
      TwiceInside(Pow2(n), Pow2(m - 1));
      assert Pow2(m) * Pow2(n) == 2 * (Pow2(m - 1) * Pow2(n));
    }
  }

  lemma Same32(a: u32, b: u32)
    requires forall j: nat :: j < 32 ==> (Bit(a, j) <==> Bit(b, j))
    ensures a == b
  {
    Powers();
    PowSum(16, 16);
    SameBits(32, a, b);
  }

  lemma {:induction false} HighBits(n: nat, a: nat, j: nat)
    requires a < Pow2(n) && j >= n
    ensures !Bit(a, j)
  {
    if j > 0 {
      HighBits(if n > 0 then n - 1 else 0, a / 2, j - 1);
    }
  }

  lemma ShiftBits(k: u32, j: nat)
    requires j < 32
    ensures Bit(CrcShift(k), j) <==> (Bit(k, j + 1) <==> !(k % 2 == 1 && Bit(POLYNOMIAL, j)))
  {
    if k % 2 == 1 {
      Xor32Bits(k / 2, POLYNOMIAL, j);
    }
  }

  /** The steps are linear. */
  lemma ShiftLinear(a: u32, b: u32)
    ensures CrcShift(Xor32(a, b)) == Xor32(CrcShift(a), CrcShift(b))
  {
    var x := Xor32(a, b);
    Xor32Is(a, b);
    Xor32Bits(a, b, 0);
    forall j: nat | j < 32
      ensures Bit(CrcShift(x), j) <==> Bit(Xor32(CrcShift(a), CrcShift(b)), j)
    {
      ShiftBits(x, j);
      ShiftBits(a, j);
      ShiftBits(b, j);
      Xor32Bits(CrcShift(a), CrcShift(b), j);
      NextBit(a, b, j);
    }
    Same32(CrcShift(x), Xor32(CrcShift(a), CrcShift(b)));
  }

  lemma NextBit(a: u32, b: u32, j: nat)
    requires j < 32
    ensures Bit(Xor32(a, b), j + 1) <==> (Bit(a, j + 1) <==> !Bit(b, j + 1))
  {
    if j < 31 {
      Xor32Bits(a, b, j + 1);
    } else {
      Powers();
      PowSum(16, 16);
      HighBits(32, a, 32);
      HighBits(32, b, 32);
      HighBits(32, Xor32(a, b), 32);
    }
  }

  lemma {:induction false} ShiftsLinear(a: u32, b: u32, n: nat)
    ensures CrcShifts(Xor32(a, b), n) == Xor32(CrcShifts(a, n), CrcShifts(b, n))
  {
    if n > 0 {
      ShiftsLinear(a, b, n - 1);
      ShiftLinear(CrcShifts(a, n - 1), CrcShifts(b, n - 1));
    }
  }

  /** Bits of a sum of a low and a high part. */
  lemma {:induction false} SumBits(n: nat, low: nat, high: nat, j: nat)
    requires low < Pow2(n)
    ensures Bit(low + Pow2(n) * high, j) <==> if j < n then Bit(low, j) else Bit(high, j - n)
  {
    if n > 0 {
      var m := Pow2(n - 1) * high;
      assert Pow2(n) * high == 2 * m;
      HalfSum(low, m);
      if j > 0 {
        SumBits(n - 1, low / 2, high, j - 1);
      }
    }
  }

  lemma HalfSum(low: nat, m: nat)
    ensures (low + 2 * m) % 2 == low % 2 && (low + 2 * m) / 2 == low / 2 + m
  {
  }

  function Doubled(k: nat, n: nat): nat {
    if n == 0 then k else 2 * Doubled(k, n - 1)
  }

  /** Zeros at the end are only shifted out. */
  lemma {:induction false} ZerosShifted(k: nat, x: u32, n: nat)
    requires x == Doubled(k, n)
    ensures k <= x && CrcShifts(x, n) == k
  {
    if n > 0 {
      ShiftEarlier(x, n - 1);
      ZerosShifted(k, Doubled(k, n - 1), n - 1);
    }
  }

  lemma EightZeros(k: nat)
    ensures Doubled(k, 8) == 256 * k
  {
    assert Doubled(k, 1) == 2 * k;
    assert Doubled(k, 2) == 4 * k;
    assert Doubled(k, 3) == 8 * k;
    assert Doubled(k, 4) == 16 * k;
    assert Doubled(k, 5) == 32 * k;
    assert Doubled(k, 6) == 64 * k;
    assert Doubled(k, 7) == 128 * k;
  }

  lemma {:induction false} ShiftEarlier(k: u32, n: nat)
    ensures CrcShifts(k, n + 1) == CrcShifts(CrcShift(k), n)
  {
    if n > 0 {
      ShiftEarlier(k, n - 1);
    }
  }

  /** A number is the exclusive or of its last byte and the rest. */
  lemma LastByte(x: u32)
    ensures x == Xor32(x % 256, x / 256 * 256)
  {
    Powers();
    forall j: nat | j < 32
      ensures Bit(x, j) <==> Bit(Xor32(x % 256, x / 256 * 256), j)
    {
      Xor32Bits(x % 256, x / 256 * 256, j);
      SumBits(8, x % 256, x / 256, j);
      SumBits(8, 0, x / 256, j);
      LastByteBits(x % 256, j);
    }
    Same32(x, Xor32(x % 256, x / 256 * 256));
  }

  lemma LastByteBits(low: nat, j: nat)
    requires low < 256
    ensures j >= 8 ==> !Bit(low, j)
    ensures !Bit(0, j)
  {
    Powers();
    HighBits(0, 0, j);
    if j >= 8 {
      HighBits(8, low, j);
    }
  }

  lemma DroppedByte(x: nat, j: nat)
    ensures Bit(x / 256, j) <==> Bit(x, j + 8)
  {
    Powers();
    SumBits(8, x % 256, x / 256, j + 8);
  }

  /** A byte changes the last byte only. */
  lemma ByteIn(k: u32, b: byte)
    ensures Xor32(k, b) / 256 == k / 256
  {
    var x := Xor32(k, b);
    forall j: nat | j < 24
      ensures Bit(x / 256, j) <==> Bit(k / 256, j)
    {
      DroppedByte(x, j);
      DroppedByte(k, j);
      Xor32Bits(k, b, j + 8);
      LastByteBits(b, j + 8);
    }
    Powers();
    PowSum(8, 16);
    SameBits(24, x / 256, k / 256);
  }

  /** The step with the table is eight steps of the register for the byte. */
  lemma CrcStepIs(k: u32, b: byte)
    ensures CrcStep(CrcTable, k, b) == CrcShifts(Xor32(k, b), 8)
  {
    var x := Xor32(k, b);
    LastByte(x);
    ByteIn(k, b);
    ShiftsLinear(x % 256, x / 256 * 256, 8);
    EightZeros(x / 256);
    ZerosShifted(x / 256, x / 256 * 256, 8);
  }

  /** The second key goes through the linear congruential step of section 6.1, modulo 2^32. */
  lemma Key1Is(k1: u32, k0: u32)
    ensures Key1(k1, k0) == ((k1 + k0 % 256) * 134775813 + 1) % 0x1_0000_0000
  {
    var s := k1 + k0 % 256;
    assert ToU32(s) == s - s / 0x1_0000_0000 * 0x1_0000_0000;
    ModShift(ToU32(s) * 134775813 + 1, s / 0x1_0000_0000 * 134775813);
  }

  lemma ModShift(a: int, q: int)
    ensures (a + q * 0x1_0000_0000) % 0x1_0000_0000 == a % 0x1_0000_0000
  {
  }

  /** The mask is made from the third key with its second bit on: the second byte of the product of that
      number and its neighbour. */
  lemma MagicIs(k2: u32, t: u32)
    requires Bit(t, 1) && forall j: nat :: j < 32 && j != 1 ==> (Bit(t, j) <==> Bit(k2, j))
    ensures MagicOf(k2) == t * (if t % 2 == 0 then t + 1 else t - 1) / 256 % 256
  {
    var s := WithSecondBit(k2);
    forall j: nat | j < 32
      ensures Bit(s, j) <==> Bit(t, j)
    {
      SecondBitOn(k2, j);
    }
    Same32(s, t);
    XorOne(t);
    LowBytes(t * Xor32(t, 1));
  }

  /** The keys of section 6.1.5: they begin with three fixed numbers and take in one byte after the
      other, and the highest byte of the second key goes into the third. */
  lemma KeysNext(password: bytes, b: byte)
    ensures Start(PkwareWords(CrcTable), []) == Keys(305419896, 591751049, 878082192)
    ensures var (k, n) := (Start(PkwareWords(CrcTable), password), Start(PkwareWords(CrcTable), password + [b]));
            && n.k0 == CrcShifts(Xor32(k.k0, b), 8)
            && n.k1 == ((k.k1 + n.k0 % 256) * 134775813 + 1) % 0x1_0000_0000
            && n.k2 == CrcShifts(Xor32(k.k2, n.k1 / 0x100_0000), 8)
  {
    var w := PkwareWords(CrcTable);
    var k := Start(w, password);
    assert (password + [b])[..|password|] == password;
    assert Start(w, password + [b]) == Update(w, k, b);
    UpdateIs(k, b);
  }

  lemma UpdateIs(k: Keys, b: byte)
    ensures var n := Update(PkwareWords(CrcTable), k, b);
            && n.k0 == CrcShifts(Xor32(k.k0, b), 8)
            && n.k1 == ((k.k1 + n.k0 % 256) * 134775813 + 1) % 0x1_0000_0000
            && n.k2 == CrcShifts(Xor32(k.k2, n.k1 / 0x100_0000), 8)
  {
    var k0 := CrcStep(CrcTable, k.k0, b);
    var k1 := Key1(k.k1, k0);
    CrcStepIs(k.k0, b);
    Key1Is(k.k1, k0);
    CrcStepIs(k.k2, k1 / 0x100_0000);
  }

  /** The byte of the key stream. */
  lemma MaskIs(k: Keys, t: u32)
    requires Bit(t, 1) && forall j: nat :: j < 32 && j != 1 ==> (Bit(t, j) <==> Bit(k.k2, j))
    ensures Mask(PkwareWords(CrcTable), k) == t * (if t % 2 == 0 then t + 1 else t - 1) / 256 % 256
  {
    MagicIs(k.k2, t);
  }

  lemma SecondBitOn(k: u32, j: nat)
    ensures Bit(WithSecondBit(k), j) <==> j == 1 || Bit(k, j)
  {
    var s := WithSecondBit(k);
    assert s % 2 == k % 2 && s / 2 % 2 == 1 && s / 2 / 2 == k / 2 / 2;
    if j >= 2 {
      TwoDown(s, j);
      TwoDown(k, j);
    }
  }

  lemma TwoDown(n: nat, j: nat)
    requires j >= 2
    ensures Bit(n, j) <==> Bit(n / 2 / 2, j - 2)
  {
    assert Bit(n, j) <==> Bit(n / 2, j - 1);
  }

  lemma XorOne(t: u32)
    ensures Xor32(t, 1) == if t % 2 == 0 then t + 1 else t - 1
  {
    var n: u32 := if t % 2 == 0 then t + 1 else t - 1;
    forall j: nat | j < 32
      ensures Bit(Xor32(t, 1), j) <==> Bit(n, j)
    {
      Xor32Bits(t, 1, j);
      if j > 0 {
        HighBits(1, 1, j);
        assert n / 2 == t / 2;
      }
    }
    Same32(Xor32(t, 1), n);
  }

  lemma LowBytes(p: nat)
    ensures ToU32(p) / 256 % 256 == p / 256 % 256
  {
    var hi, lo := p / 0x1_0000_0000, p % 0x1_0000_0000;
    assert p == hi * 0x1_0000_0000 + lo;
    assert p / 256 == hi * 0x100_0000 + lo / 256;
    SameRemainder(hi * 0x1_0000, lo / 256);
  }

  lemma SameRemainder(q: int, r: int)
    ensures (q * 256 + r) % 256 == r % 256
  {
  }
}
