/** Key derivation (RFC 2898, section 5.2).  The pseudorandom function, already keyed with the password,
    is a parameter with outputs of `h` bytes. */
module Pbkdf2 {
  import opened Bytes

  type Prf = bytes -> bytes

  ghost predicate OutputSize(prf: Prf, h: nat) {
    h > 0 && forall x :: |prf(x)| == h
  }

  // ---------------------------------------------------------------- the definition

  /** INT(i): four bytes, most significant first. */
  function Int(i: nat): bytes {
    [i / 0x100_0000 % 256, i / 0x1_0000 % 256, i / 0x100 % 256, i % 256]
  }

  /** U_j of block `i`; counts below one are taken as one. */
  function U(prf: Prf, salt: bytes, i: nat, j: int): bytes
    decreases j
  {
    if j <= 1 then prf(salt + Int(i)) else prf(U(prf, salt, i, j - 1))
  }

  function XorSeq(a: bytes, b: bytes): (r: bytes)
    ensures |r| == |a|
  {
    seq(|a|, k requires 0 <= k < |a| => if k < |b| then Xor(a[k], b[k]) else a[k])
  }

  /** F(i): the exclusive or of U_1 to U_c. */
  function F(prf: Prf, salt: bytes, i: nat, c: int): bytes
    decreases c
  {
    if c <= 1 then U(prf, salt, i, 1) else XorSeq(F(prf, salt, i, c - 1), U(prf, salt, i, c))
  }

  /** T_1 to T_n, one after the other. */
  function Ts(prf: Prf, salt: bytes, c: int, n: nat): bytes {
    if n == 0 then [] else Ts(prf, salt, c, n - 1) + F(prf, salt, n, c)
  }

  function BlockCount(h: nat, keyLen: nat): nat
    requires h > 0
  {
    (keyLen + h - 1) / h
  }

  /** DK: the first `keyLen` bytes of as many blocks as are needed. */
  function DerivedKey(prf: Prf, h: nat, salt: bytes, c: int, keyLen: nat): bytes
    requires OutputSize(prf, h)
  {
    TsLength(prf, h, salt, c, BlockCount(h, keyLen));
    EnoughBlocks(h, keyLen);
    Ts(prf, salt, c, BlockCount(h, keyLen))[..keyLen]
  }

  // ---------------------------------------------------------------- the definition in other words

  /** `be` are the four bytes of a number, most significant first. */
  predicate BigEndian(be: bytes, i: nat) {
    |be| == 4 && forall k :: 0 <= k < 4 ==> be[k] == LE(4, i)[3 - k]
  }

  /** INT(i) is the little-endian form backwards, and gives the number back. */
  lemma IntIs(i: nat)
    ensures BigEndian(Int(i), i)
    ensures var a: int, b: int, c: int, d: int := Int(i)[0], Int(i)[1], Int(i)[2], Int(i)[3];
            i < 0x1_0000_0000 ==> i == ((a * 256 + b) * 256 + c) * 256 + d
  {
    LEStep(4, i);
    LEStep(3, i / 256);
    LEStep(2, i / 256 / 256);
    LEStep(1, i / 256 / 256 / 256);
  }

  /** U_1 is the value of the salt and the block number, each further one that of the one before. */
  lemma FirstAndNext(prf: Prf, salt: bytes, i: nat, j: int, be: bytes)
    requires BigEndian(be, i)
    ensures U(prf, salt, i, 1) == prf(salt + be)
    ensures j >= 1 ==> U(prf, salt, i, j + 1) == prf(U(prf, salt, i, j))
  {
    IntIs(i);
    assert be == Int(i);
  }

  /** Bit `j` of byte `k` of U_u. */
  predicate UBit(prf: Prf, salt: bytes, i: nat, u: int, k: nat, j: nat) {
    k < |U(prf, salt, i, u)| && Bit(U(prf, salt, i, u)[k], j)
  }

  /** The numbers `u` up to `c` for which that is on. */
  ghost function OnIn(prf: Prf, salt: bytes, i: nat, c: nat, k: nat, j: nat): set<nat> {
    set u: nat | 1 <= u <= c && UBit(prf, salt, i, u, k, j)
  }

  lemma OneMoreOn(prf: Prf, salt: bytes, i: nat, c: nat, k: nat, j: nat)
    requires c > 0
    ensures |OnIn(prf, salt, i, c, k, j)|
         == |OnIn(prf, salt, i, c - 1, k, j)| + if UBit(prf, salt, i, c, k, j) then 1 else 0
    ensures OnIn(prf, salt, i, 0, k, j) == {}
  {
    var before := OnIn(prf, salt, i, c - 1, k, j);
    assert OnIn(prf, salt, i, c, k, j) == before + if UBit(prf, salt, i, c, k, j) then {c} else {};
  }

  /** Bit `j` of byte `k` of a block is on if and only if it is on in an odd number of U_1 to U_c. */
  lemma {:induction false} BlockBits(prf: Prf, h: nat, salt: bytes, i: nat, c: nat, k: nat, j: nat)
    requires OutputSize(prf, h) && k < h && j < 8 && c >= 1
    ensures |F(prf, salt, i, c)| == h
    ensures Bit(F(prf, salt, i, c)[k], j) <==> |OnIn(prf, salt, i, c, k, j)| % 2 == 1
  {
    ULength(prf, h, salt, i, c);
    OneMoreOn(prf, salt, i, c, k, j);
    FLength(prf, h, salt, i, c);
    if c > 1 {
      FLength(prf, h, salt, i, c - 1);
      BlockBits(prf, h, salt, i, c - 1, k, j);
      XorIff(F(prf, salt, i, c - 1)[k], U(prf, salt, i, c)[k], j);
    }
  }

  /** The key is made of the blocks, from the first on, in order. */
  lemma KeyByteOf(prf: Prf, h: nat, salt: bytes, c: int, keyLen: nat, q: nat, r: nat)
    requires OutputSize(prf, h) && r < h && q * h + r < keyLen
    ensures |DerivedKey(prf, h, salt, c, keyLen)| == keyLen && |F(prf, salt, q + 1, c)| == h
    ensures DerivedKey(prf, h, salt, c, keyLen)[q * h + r] == F(prf, salt, q + 1, c)[r]
  {
    var n := BlockCount(h, keyLen);
    FLength(prf, h, salt, q + 1, c);
    TsLength(prf, h, salt, c, n);
    EnoughBlocks(h, keyLen);
    TimesIs(q, h);
    BlockUsed(h, n, q, r);
    var block := (i: nat) => F(prf, salt, i, c);
    forall i
      ensures |block(i)| == h
    {
      FLength(prf, h, salt, i, c);
    }
    TsInRow(prf, salt, c, block, n);
    RowByte(block, h, n, q, r);
  }

  lemma BlockUsed(h: nat, n: nat, q: nat, r: nat)
    requires Times(q, h) + r < Times(n, h)
    ensures q < n
  {
    if n <= q {
      TimesGrows(n, q, h);
    }
  }

  /** Blocks of one length, one after the other. */
  function InRow(block: nat -> bytes, n: nat): bytes {
    if n == 0 then [] else InRow(block, n - 1) + block(n)
  }

  lemma {:induction false} TsInRow(prf: Prf, salt: bytes, c: int, block: nat -> bytes, n: nat)
    requires forall i :: block(i) == F(prf, salt, i, c)
    ensures Ts(prf, salt, c, n) == InRow(block, n)
  {
    if n > 0 {
      TsInRow(prf, salt, c, block, n - 1);
    }
  }

  lemma {:induction false} RowByte(block: nat -> bytes, h: nat, n: nat, q: nat, r: nat)
    requires (forall i :: |block(i)| == h) && q < n && r < h
    ensures |InRow(block, n)| == Times(n, h) > Times(q, h) + r
    ensures InRow(block, n)[Times(q, h) + r] == block(q + 1)[r]
  {
    if q < n - 1 {
      RowByte(block, h, n - 1, q, r);
    } else {
      RowLength(block, h, n - 1);
    }
  }

  lemma {:induction false} RowLength(block: nat -> bytes, h: nat, n: nat)
    requires forall i :: |block(i)| == h
    ensures |InRow(block, n)| == Times(n, h)
  {
    if n > 0 {
      RowLength(block, h, n - 1);
    }
  }

  // ---------------------------------------------------------------- lengths

  lemma {:induction false} ULength(prf: Prf, h: nat, salt: bytes, i: nat, j: int)
    requires OutputSize(prf, h)
    ensures |U(prf, salt, i, j)| == h
    decreases j
  {
    if j > 1 {
      ULength(prf, h, salt, i, j - 1);
    }
  }

  lemma {:induction false} FLength(prf: Prf, h: nat, salt: bytes, i: nat, c: int)
    requires OutputSize(prf, h)
    ensures |F(prf, salt, i, c)| == h
    decreases c
  {
    ULength(prf, h, salt, i, 1);
    if c > 1 {
      FLength(prf, h, salt, i, c - 1);
    }
  }

  lemma {:induction false} TimesIs(n: nat, h: nat)
    ensures Times(n, h) == n * h
  {
    if n > 0 {
      TimesIs(n - 1, h);
      assert (n - 1) * h + h == n * h;
    }
  }

  lemma {:induction false} TimesGrows(m: nat, n: nat, h: nat)
    requires m <= n
    ensures Times(m, h) <= Times(n, h)
  {
    if m < n {
      TimesGrows(m, n - 1, h);
    }
  }

  lemma {:induction false} TsLength(prf: Prf, h: nat, salt: bytes, c: int, n: nat)
    requires OutputSize(prf, h)
    ensures |Ts(prf, salt, c, n)| == Times(n, h)
  {
    if n > 0 {
      TsLength(prf, h, salt, c, n - 1);
      FLength(prf, h, salt, n, c);
    }
  }

  lemma EnoughBlocks(h: nat, keyLen: nat)
    requires h > 0
    ensures Times(BlockCount(h, keyLen), h) >= keyLen
  {
    var q, r := (keyLen + h - 1) / h, (keyLen + h - 1) % h;
    assert keyLen + h - 1 == q * h + r;
    TimesIs(q, h);
  }

  lemma {:induction false} TsPrefix(prf: Prf, salt: bytes, c: int, m: nat, n: nat)
    requires m <= n
    ensures Ts(prf, salt, c, m) <= Ts(prf, salt, c, n)
  {
    if m < n {
      TsPrefix(prf, salt, c, m, n - 1);
    }
  }

  lemma FewerBlocks(h: nat, k: nat, keyLen: nat)
    requires h > 0 && k <= keyLen
    ensures BlockCount(h, k) <= BlockCount(h, keyLen)
  {
    var x, y := k + h - 1, keyLen + h - 1;
    var a, b := x / h, y / h;
    assert x == a * h + x % h && y == b * h + y % h;
    assert (a - b) * h == a * h - b * h < h;
    AtLeast(a - b, h);
  }

  lemma AtLeast(d: int, h: nat)
    ensures d >= 1 ==> d * h >= h
  {
    if d >= 1 {
      assert d * h == (d - 1) * h + h;
    }
  }

  /** A shorter key is the beginning of a longer one. */
  lemma ShorterKey(prf: Prf, h: nat, salt: bytes, c: int, k: nat, keyLen: nat)
    requires OutputSize(prf, h) && k <= keyLen
    ensures |DerivedKey(prf, h, salt, c, keyLen)| == keyLen
    ensures DerivedKey(prf, h, salt, c, k) == DerivedKey(prf, h, salt, c, keyLen)[..k]
  {
    FewerBlocks(h, k, keyLen);
    TsPrefix(prf, salt, c, BlockCount(h, k), BlockCount(h, keyLen));
    TsLength(prf, h, salt, c, BlockCount(h, k));
    TsLength(prf, h, salt, c, BlockCount(h, keyLen));
    EnoughBlocks(h, k);
    EnoughBlocks(h, keyLen);
  }

  // ---------------------------------------------------------------- the loops

  /** `T[x] ^= U[x]`, where T is the part of `dk` from `at` on. */
  method XorInto(dk: array<byte>, at: nat, u: array<byte>)
    requires at + u.Length <= dk.Length && dk != u
    modifies dk
    ensures dk[..at] == old(dk[..at])
    ensures dk[at..at + u.Length] == XorSeq(old(dk[at..at + u.Length]), u[..])
  {
    ghost var t := dk[at..at + u.Length];
    for x := 0 to u.Length
      invariant dk[..at] == old(dk[..at])
      invariant forall k :: 0 <= k < x ==> dk[at + k] == Xor(t[k], u[k])
      invariant forall k :: x <= k < u.Length ==> dk[at + k] == t[k]
    {
      dk[at + x] := Xor(dk[at + x], u[x]);
    }
  }

  /** `prf.Sum` into an array, from `at` on. */
  method Sum(a: array<byte>, at: nat, data: bytes)
    requires at + |data| <= a.Length
    modifies a
    ensures a[..at] == old(a[..at]) && a[at..at + |data|] == data
  {
    forall k | 0 <= k < |data| {
      a[at + k] := data[k];
    }
  }

  lemma WholeSlice(s: bytes)
    ensures s[0..|s|] == s
  {
  }

  method FirstRound(prf: Prf, h: nat, salt: bytes, i: nat, dk: array<byte>, at: nat, u: array<byte>)
    requires OutputSize(prf, h) && at + h <= dk.Length && u.Length == h && dk != u
    modifies dk, u
    ensures dk[..at] == old(dk[..at]) && u[..] == U(prf, salt, i, 1) && dk[at..at + h] == F(prf, salt, i, 1)
  {
    Sum(dk, at, prf(salt + Int(i)));
    Sum(u, 0, dk[at..at + h]);
    WholeSlice(u[..]);
  }

  /** The next U, and its exclusive or into T. */
  method Round(prf: Prf, h: nat, dk: array<byte>, at: nat, u: array<byte>)
    requires OutputSize(prf, h) && at + h <= dk.Length && u.Length == h && dk != u
    modifies dk, u
    ensures dk[..at] == old(dk[..at]) && u[..] == prf(old(u[..]))
    ensures dk[at..at + h] == XorSeq(old(dk[at..at + h]), u[..])
  {
    Sum(u, 0, prf(u[..]));
    WholeSlice(u[..]);
    XorInto(dk, at, u);
  }

  /** One block, computed in place at the end of `dk` with `u` as the running value. */
  method Block(prf: Prf, h: nat, salt: bytes, i: nat, iter: int, dk: array<byte>, at: nat, u: array<byte>)
    requires OutputSize(prf, h) && at + h <= dk.Length && u.Length == h && dk != u
    modifies dk, u
    ensures dk[..at] == old(dk[..at]) && dk[at..at + h] == F(prf, salt, i, iter)
  {
    FirstRound(prf, h, salt, i, dk, at, u);
    var n := 2;
    while n <= iter
      invariant 2 <= n && (n <= iter + 1 || n == 2)
      invariant dk[..at] == old(dk[..at])
      invariant u[..] == U(prf, salt, i, n - 1) && dk[at..at + h] == F(prf, salt, i, n - 1)
    {
      Round(prf, h, dk, at, u);
      n := n + 1;
    }
  }

  method NextBlock(prf: Prf, h: nat, salt: bytes, i: nat, iter: int, dk: array<byte>, len: nat, u: array<byte>)
    requires OutputSize(prf, h) && len + h <= dk.Length && u.Length == h && dk != u
    requires dk[..len] == Ts(prf, salt, iter, i)
    modifies dk, u
    ensures dk[..len + h] == Ts(prf, salt, iter, i + 1)
  {
    Block(prf, h, salt, i + 1, iter, dk, len, u);
    assert dk[..len + h] == dk[..len] + dk[len..len + h];
  }

  /** `pbkdf2`: the blocks grow at the end of one array, for every iteration count and key length. */
  method Pbkdf2(prf: Prf, h: nat, salt: bytes, iter: int, keyLen: nat) returns (key: bytes)
    requires OutputSize(prf, h)
    ensures key == DerivedKey(prf, h, salt, iter, keyLen)
  {
    var numBlocks := BlockCount(h, keyLen);
    TimesIs(numBlocks, h);
    var dk := new byte[numBlocks * h](_ => 0);
    var u := new byte[h](_ => 0);
    var len := 0;
    for i := 0 to numBlocks
      invariant len == Times(i, h) <= dk.Length && dk[..len] == Ts(prf, salt, iter, i)
    {
      TimesGrows(i + 1, numBlocks, h);
      NextBlock(prf, h, salt, i, iter, dk, len, u);
      len := len + h;
    }
    EnoughBlocks(h, keyLen);
    assert dk[..len][..keyLen] == dk[..keyLen];
    key := dk[..keyLen];
  }

  /** `deriveAesKeys`: 66 bytes cut into encryption key, MAC key and verification value. */
  method DeriveAesKeys(prf: Prf, h: nat, salt: bytes) returns (encKey: bytes, macKey: bytes, pvv: bytes)
    requires OutputSize(prf, h)
    ensures |encKey| == 32 && |macKey| == 32 && |pvv| == 2
    ensures encKey + macKey + pvv == DerivedKey(prf, h, salt, 1000, 66)
    ensures encKey == DerivedKey(prf, h, salt, 1000, 32)
  {
    var dk := Pbkdf2(prf, h, salt, 1000, 66);
    ShorterKey(prf, h, salt, 1000, 32, 66);
    encKey, macKey, pvv := dk[..32], dk[32..64], dk[64..66];
  }
}
