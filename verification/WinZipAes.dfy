/** WinZip AES: the counter stream with its little-endian 128-bit counter, and the writer and reader
    that authenticate the ciphertext.  The block cipher, the key derivation and the MAC are parameters. */
module WinZipAes {
  import opened Bytes

  const BLOCK: nat := 16

  /** The number of counter values. */
  const WRAP: int := 0x1_0000_0000_0000_0000_0000_0000_0000_0000

  lemma WrapIs()
    ensures Pow256(BLOCK) == WRAP
  {
    Widths();
    assert Pow256(9) == 256 * Pow256(8);
    assert Pow256(10) == 256 * Pow256(9);
    assert Pow256(11) == 256 * Pow256(10);
    assert Pow256(12) == 256 * Pow256(11);
    assert Pow256(13) == 256 * Pow256(12);
    assert Pow256(14) == 256 * Pow256(13);
    assert Pow256(15) == 256 * Pow256(14);
  }

  /** The counter of key stream block `i`. */
  function Counter(i: nat): (c: bytes)
    ensures |c| == BLOCK
  {
    LE(BLOCK, (1 + i) % WRAP)
  }

  /** Byte `k` of the encryption of a block. */
  type BlockCipher = (bytes, nat) -> byte

  /** Byte `i` of the key stream. */
  function KeyByte(E: BlockCipher, i: nat): byte {
    E(Counter(i / BLOCK), i % BLOCK)
  }

  /** `data` masked with the key stream from position `from` on. */
  function Masked(E: BlockCipher, from: nat, data: bytes): (r: bytes)
    ensures |r| == |data|
  {
    seq(|data|, i requires 0 <= i < |data| => Xor(data[i], KeyByte(E, from + i)))
  }

  /** Every byte of the result is that of the data exclusive-ored with its byte of the key stream. */
  lemma MaskedBits(E: BlockCipher, from: nat, data: bytes, i: nat, j: nat)
    requires i < |data| && j < 8
    ensures var b := E(LE(BLOCK, (1 + (from + i) / 16) % WRAP), (from + i) % 16);
            Bit(Masked(E, from, data)[i], j) <==> (Bit(data[i], j) <==> !Bit(b, j))
  {
    XorIff(data[i], KeyByte(E, from + i), j);
  }

  lemma MaskedTwice(E: BlockCipher, from: nat, data: bytes)
    ensures Masked(E, from, Masked(E, from, data)) == data
  {
    forall i | 0 <= i < |data|
      ensures Masked(E, from, Masked(E, from, data))[i] == data[i]
    {
      XorTwice(data[i], KeyByte(E, from + i));
    }
  }

  lemma MaskedSplit(E: BlockCipher, from: nat, a: bytes, b: bytes)
    ensures Masked(E, from, a + b) == Masked(E, from, a) + Masked(E, from + |a|, b)
  {
  }

  // ---------------------------------------------------------------- the counter

  /** Adding one to little-endian digits, with the carry. */
  function Inc(s: bytes): (r: bytes)
    ensures |r| == |s|
  {
    if s == [] then []
    else if s[0] == 255 then [0] + Inc(s[1..])
    else [s[0] + 1] + s[1..]
  }

  /** That is addition modulo 256^|s|. */
  lemma {:induction false} IncValue(s: bytes)
    ensures UnLE(Inc(s)) == if UnLE(s) + 1 == Pow256(|s|) then 0 else UnLE(s) + 1
  {
    UnLEBound(s);
    if s != [] {
      var r := Inc(s);
      UnLEStep(s);
      UnLEStep(r);
      UnLEBound(s[1..]);
      if s[0] == 255 {
        IncValue(s[1..]);
        assert r[1..] == Inc(s[1..]);
      } else {
        assert r[1..] == s[1..];
      }
    }
  }

  /** The first `j` digits are done, and the carry is still to be added to the rest. */
  predicate Carried(before: bytes, now: bytes, j: nat)
    requires j <= |before|
  {
    |now| == |before| && now[j..] == before[j..] && now[..j] + Inc(before[j..]) == Inc(before)
  }

  lemma CarryStep(before: bytes, now: bytes, j: nat)
    requires j < |before| && Carried(before, now, j)
    ensures now[j] == before[j]
    ensures before[j] == 255 ==> Carried(before, now[j := 0], j + 1)
    ensures before[j] < 255 ==> now[j := before[j] + 1] == Inc(before)
  {
    RestAt(before, now, j);
    if before[j] == 255 {
      CarryGoesOn(before, now, j);
    } else {
      CarryEnds(before, now, j);
    }
  }

  lemma RestAt(s: bytes, t: bytes, j: nat)
    requires j < |s| == |t| && s[j..] == t[j..]
    ensures s[j] == t[j] && s[j..][0] == s[j] && s[j..][1..] == s[j + 1..] == t[j + 1..]
  {
    assert s[j..][0] == t[j..][0];
    assert t[j..][1..] == t[j + 1..];
  }

  lemma CarryGoesOn(before: bytes, now: bytes, j: nat)
    requires j < |before| && Carried(before, now, j) && before[j] == 255
    ensures Carried(before, now[j := 0], j + 1)
  {
    RestAt(before, now, j);
    SetAt(now, j, 0, Inc(before[j + 1..]));
  }

  lemma CarryEnds(before: bytes, now: bytes, j: nat)
    requires j < |before| && Carried(before, now, j) && before[j] < 255
    ensures now[j := before[j] + 1] == Inc(before)
  {
    RestAt(before, now, j);
    SetAt(now, j, before[j] + 1, []);
  }

  lemma SetAt(now: bytes, j: nat, b: byte, tail: bytes)
    requires j < |now|
    ensures now[j := b] == now[..j] + ([b] + now[j + 1..])
    ensures now[j := b][j + 1..] == now[j + 1..] && now[j := b][..j + 1] + tail == now[..j] + ([b] + tail)
  {
  }

  lemma CarriedAll(before: bytes, now: bytes)
    requires Carried(before, now, |before|)
    ensures now == Inc(before)
  {
    assert now[..|before|] + [] == now;
  }

  lemma NextCounter(i: nat)
    ensures Inc(Counter(i)) == Counter(i + 1)
  {
    WrapIs();
    ReadWritten(BLOCK, (1 + i) % WRAP);
    IncValue(Counter(i));
    WriteRead(Inc(Counter(i)));
    assert UnLE(Inc(Counter(i))) == (1 + i + 1) % WRAP;
  }

  /** The number of key stream blocks generated for `used` bytes. */
  function Blocks(used: nat): nat {
    (used + 15) / BLOCK
  }

  class WinZipCounter {
    const E: BlockCipher
    const counter: array<byte>
    const buffer: array<byte>
    var pos: nat
    /** How many bytes have been masked. */
    ghost var used: nat

    ghost predicate Valid()
      reads this, counter, buffer
    {
      && counter.Length == BLOCK && buffer.Length == BLOCK && counter != buffer
      && counter[..] == Counter(Blocks(used))
      && pos == (if used == 0 then 0 else (used - 1) % BLOCK + 1)
      && (used > 0 ==> forall k :: 0 <= k < BLOCK ==> buffer[k] == E(Counter(Blocks(used) - 1), k))
    }

    /** The buffer holds the block in which the next byte lies. */
    ghost predicate Ready()
      reads this, counter, buffer
    {
      && counter.Length == BLOCK && buffer.Length == BLOCK && counter != buffer
      && pos == used % BLOCK && counter[..] == Counter(used / BLOCK + 1)
      && forall k :: 0 <= k < BLOCK ==> buffer[k] == E(Counter(used / BLOCK), k)
    }

    constructor (E: BlockCipher)
      ensures Valid() && used == 0 && this.E == E && fresh(counter) && fresh(buffer)
    {
      this.E := E;
      counter := new byte[BLOCK](i => if i == 0 then 1 else 0);
      buffer := new byte[BLOCK](_ => 0);
      pos, used := 0, 0;
      new;
      FirstCounter(counter[..]);
    }

    /** The carry runs on while bytes become zero. */
    method IncrementCounter()
      requires counter.Length == BLOCK
      modifies counter
      ensures counter[..] == Inc(old(counter[..]))
    {
      ghost var before := counter[..];
      var j := 0;
      while j < BLOCK
        invariant 0 <= j <= BLOCK
        invariant Carried(before, counter[..], j)
      {
        var done := IncrementDigit(j, before);
        if done {
          return;
        }
        j := j + 1;
      }
      CarriedAll(before, counter[..]);
    }

    /** One round: it is the last one if there is no further carry. */
    method IncrementDigit(j: nat, ghost before: bytes) returns (done: bool)
      requires j < counter.Length == |before| && Carried(before, counter[..], j)
      modifies counter
      ensures if done then counter[..] == Inc(before) else Carried(before, counter[..], j + 1)
    {
      CarryStep(before, counter[..], j);
      var b: int := counter[j];
      counter[j] := (b + 1) % 256;
      done := counter[j] != 0;
    }

    method EncryptBlock()
      requires counter.Length == BLOCK && buffer.Length == BLOCK && counter != buffer
      modifies buffer
      ensures forall k :: 0 <= k < BLOCK ==> buffer[k] == E(counter[..], k)
    {
      var block := counter[..];
      forall k | 0 <= k < BLOCK {
        buffer[k] := E(block, k);
      }
      assert counter[..] == block;
    }

    /** Encrypts the counter into the buffer when the last block is used up. */
    method Refill()
      requires Valid()
      modifies this`pos, counter, buffer
      ensures Ready()
    {
      BlockArithmetic(used);
      if pos == BLOCK || pos == 0 {
        NextCounter(Blocks(used));
        EncryptBlock();
        IncrementCounter();
        pos := 0;
      }
    }

    method XorBytes(dst: array<byte>, src: array<byte>, at: nat, n: nat)
      requires buffer.Length == BLOCK && pos + n <= BLOCK && at + n <= dst.Length && at + n <= src.Length
               && dst != buffer
      modifies dst
      ensures forall i :: at <= i < at + n ==> dst[i] == Xor(old(src[i]), buffer[pos + (i - at)])
      ensures forall i :: 0 <= i < dst.Length && !(at <= i < at + n) ==> dst[i] == old(dst[i])
    {
      forall i | at <= i < at + n {
        dst[i] := Xor(src[i], buffer[pos + (i - at)]);
      }
    }

    method XorBlock(dst: array<byte>, src: array<byte>, at: nat, n: nat)
      requires Ready() && n > 0 && pos + n <= BLOCK && at + n <= dst.Length && at + n <= src.Length
      requires dst != counter && dst != buffer
      modifies this`pos, this`used, dst
      ensures Valid() && used == old(used) + n
      ensures forall i :: at <= i < at + n ==> dst[i] == Xor(old(src[i]), KeyByte(E, old(used) + i - at))
      ensures forall i :: 0 <= i < dst.Length && !(at <= i < at + n) ==> dst[i] == old(dst[i])
    {
      ghost var before := used;
      XorBytes(dst, src, at, n);
      forall i | at <= i < at + n
        ensures dst[i] == Xor(old(src[i]), KeyByte(E, before + i - at))
      {
        InBlock(before, i - at);
      }
      AfterBlock(used, n);
      pos := pos + n;
      used := used + n;
    }

    /** `XORKeyStream`: masks `src[..n]` into `dst`, which may be the same array. */
    method XORKeyStream(dst: array<byte>, src: array<byte>, n: nat)
      requires Valid() && n <= dst.Length && n <= src.Length
      requires {dst, src} !! {counter, buffer}
      modifies this`pos, this`used, counter, buffer, dst
      ensures Valid() && used == old(used) + n
      ensures dst[..n] == Masked(E, old(used), old(src[..n])) && dst[n..] == old(dst[n..])
    {
      ghost var from, data := used, src[..n];
      var done := 0;
      while done < n
        invariant 0 <= done <= n && Valid() && used == from + done
        invariant forall i :: 0 <= i < done ==> dst[i] == Xor(data[i], KeyByte(E, from + i))
        invariant forall i :: done <= i < n ==> src[i] == data[i]
        invariant forall i :: n <= i < dst.Length ==> dst[i] == old(dst[i])
      {
        var m := XorSome(dst, src, done, n - done);
        done := done + m;
      }
    }

    /** As much as the current block of the key stream has left. */
    method XorSome(dst: array<byte>, src: array<byte>, at: nat, n: nat) returns (m: nat)
      requires Valid() && n > 0 && at + n <= dst.Length && at + n <= src.Length
      requires {dst, src} !! {counter, buffer}
      modifies this`pos, this`used, counter, buffer, dst
      ensures Valid() && 0 < m <= n && used == old(used) + m
      ensures forall i :: at <= i < at + m ==> dst[i] == Xor(old(src[i]), KeyByte(E, old(used) + i - at))
      ensures forall i :: 0 <= i < dst.Length && !(at <= i < at + m) ==> dst[i] == old(dst[i])
    {
      Refill();
      m := Min(n, BLOCK - pos);
      XorBlock(dst, src, at, m);
    }
  }

  lemma FirstCounter(c: bytes)
    requires |c| == BLOCK && c[0] == 1 && forall i :: 0 < i < BLOCK ==> c[i] == 0
    ensures c == Counter(0)
  {
    forall i: nat | 0 < i < BLOCK
      ensures Digit(1, i) == 0
    {
      ZeroDigit(i - 1);
    }
    assert forall i :: 0 <= i < BLOCK ==> Counter(0)[i] == Digit(1, i);
  }

  lemma BlockArithmetic(used: nat)
    ensures used > 0 && (used - 1) % BLOCK + 1 < BLOCK ==>
              used % BLOCK == (used - 1) % BLOCK + 1 && Blocks(used) == used / BLOCK + 1
    ensures used == 0 || (used - 1) % BLOCK + 1 == BLOCK ==> used % BLOCK == 0 && Blocks(used) == used / BLOCK
  {
  }

  lemma InBlock(used: nat, i: nat)
    requires used % BLOCK + i < BLOCK
    ensures (used + i) / BLOCK == used / BLOCK && (used + i) % BLOCK == used % BLOCK + i
  {
  }

  lemma AfterBlock(used: nat, n: nat)
    requires 0 < n && used % BLOCK + n <= BLOCK
    ensures Blocks(used + n) == used / BLOCK + 1 && (used + n - 1) % BLOCK + 1 == used % BLOCK + n
  {
  }

  // ---------------------------------------------------------------- writer and reader

  const SALT_SIZE: nat := 16
  const PVV_SIZE: nat := 2
  const MAC_SIZE: nat := 10
  const OVERHEAD: nat := SALT_SIZE + PVV_SIZE + MAC_SIZE

  /** What a password and a salt give: the block cipher, the MAC and the verification value. */
  datatype AesKeys = AesKeys(E: BlockCipher, mac: bytes -> bytes, pvv: bytes)

  /** The MAC is 20 bytes long, of which ten are kept. */
  ghost predicate KeysOk(k: AesKeys) {
    |k.pvv| == PVV_SIZE && forall d :: |k.mac(d)| == 20
  }

  function Tag(k: AesKeys, cipher: bytes): bytes {
    var t := k.mac(cipher);
    if |t| < MAC_SIZE then t else t[..MAC_SIZE]
  }

  /** A whole encrypted entry. */
  function Sealed(k: AesKeys, salt: bytes, plain: bytes): bytes {
    var c := Masked(k.E, 0, plain);
    salt + k.pvv + c + Tag(k, c)
  }

  class AesWriter {
    const keys: AesKeys
    const salt: bytes
    const stream: WinZipCounter
    var dest: bytes
    var mac: bytes
    var scratch: array<byte>
    ghost var plain: bytes

    ghost predicate Valid()
      reads this, stream, stream.counter, stream.buffer
    {
      && stream.Valid() && stream.E == keys.E && stream.used == |plain|
      && mac == Masked(keys.E, 0, plain) && dest == salt + keys.pvv + mac
      && scratch != stream.counter && scratch != stream.buffer
    }

    constructor (keys: AesKeys, salt: bytes)
      ensures Valid() && plain == [] && this.keys == keys && this.salt == salt
      ensures fresh(stream) && fresh(stream.counter) && fresh(stream.buffer) && fresh(scratch)
    {
      this.keys, this.salt, plain, mac := keys, salt, [], [];
      dest := salt + keys.pvv;
      scratch := new byte[0];
      stream := new WinZipCounter(keys.E);
      new;
      assert salt + keys.pvv + [] == salt + keys.pvv;
    }

    /** Encrypts into the scratch buffer, which grows when needed, and leaves the caller's data alone. */
    method Write(p: array<byte>)
      requires Valid() && p != scratch && p != stream.counter && p != stream.buffer
      modifies this`dest, this`mac, this`scratch, this`plain, scratch, stream`pos, stream`used, stream.counter,
               stream.buffer
      ensures Valid() && plain == old(plain) + p[..] && (scratch == old(scratch) || fresh(scratch))
      ensures p[..] == old(p[..])
    {
      ghost var text := plain + p[..];
      MaskedSplit(keys.E, 0, plain, p[..]);
      var buf := EncryptChunk(p);
      Emit(buf);
      assert mac == Masked(keys.E, 0, text);
      plain := text;
    }

    /** Ciphertext goes to the MAC and to the destination. */
    method Emit(buf: bytes)
      modifies this`mac, this`dest
      ensures mac == old(mac) + buf
      ensures old(dest == salt + keys.pvv + mac) ==> dest == salt + keys.pvv + mac
    {
      Associate(salt + keys.pvv, mac, buf);
      mac := mac + buf;
      dest := dest + buf;
    }

    method EncryptChunk(p: array<byte>) returns (buf: bytes)
      requires stream.Valid() && scratch != stream.counter && scratch != stream.buffer
      requires p != scratch && p != stream.counter && p != stream.buffer
      modifies this`scratch, scratch, stream`pos, stream`used, stream.counter, stream.buffer
      ensures stream.Valid() && stream.used == old(stream.used) + p.Length
              && (scratch == old(scratch) || fresh(scratch))
      ensures scratch != stream.counter && scratch != stream.buffer
      ensures buf == Masked(stream.E, old(stream.used), p[..]) && p[..] == old(p[..])
    {
      if scratch.Length < p.Length {
        scratch := new byte[p.Length];
      }
      assert p[..p.Length] == p[..];
      stream.XORKeyStream(scratch, p, p.Length);
      buf := scratch[..p.Length];
    }

    method Close()
      requires Valid()
      modifies this`dest
      ensures dest == Sealed(keys, salt, plain)
    {
      var sum := Tag(keys, mac);
      dest := dest + sum;
    }
  }

  datatype ReadResult = Data | Verified | Tampered | Truncated

  /** What a read at the end of the data reports, with `behind` bytes behind it already read. */
  function Check(keys: AesKeys, src: bytes, end: nat, behind: nat): ReadResult
    requires end <= |src|
  {
    if |src| < end + behind + MAC_SIZE then Truncated
    else if src[end + behind..end + behind + MAC_SIZE] == Tag(keys, src[..end]) then Verified
    else Tampered
  }

  class AesReader {
    const keys: AesKeys
    const src: bytes
    const dataSize: nat
    const stream: WinZipCounter
    var pos: nat
    var mac: bytes
    /** How many bytes behind the data have been read. */
    var behind: nat

    /** Where the encrypted data ends: a source that ends early gives less. */
    function End(): nat {
      Min(dataSize, |src|)
    }

    ghost predicate Valid()
      reads this, stream, stream.counter, stream.buffer
    {
      stream.Valid() && stream.E == keys.E && stream.used == pos && pos <= End() && mac == src[..pos]
        && behind <= |src| - End()
    }

    constructor (keys: AesKeys, src: bytes, dataSize: nat)
      ensures Valid() && this.keys == keys && this.src == src && this.dataSize == dataSize && pos == 0 && behind == 0
      ensures fresh(stream) && fresh(stream.counter) && fresh(stream.buffer)
    {
      this.keys, this.src, this.dataSize, pos, mac, behind := keys, src, dataSize, 0, [], 0;
      stream := new WinZipCounter(keys.E);
    }

    /** Decrypts in place the `n` bytes that the source gives; at the end of the data the MAC of all
        ciphertext read is compared with the next ten bytes.  Every read at the end takes ten more, so
        only the first one finds the MAC. */
    method Read(p: array<byte>, n: nat) returns (r: ReadResult)
      requires Valid() && n <= p.Length && n <= End() - pos && (n == 0 ==> pos == End())
      requires p != stream.counter && p != stream.buffer
      modifies this`pos, this`mac, this`behind, stream`pos, stream`used, stream.counter, stream.buffer, p
      ensures Valid() && pos == old(pos) + n
      ensures p[..n] == Masked(keys.E, 0, src)[old(pos)..pos]
      ensures r == (if n > 0 then Data else Check(keys, src, End(), old(behind)))
      ensures behind == if n > 0 then old(behind) else Min(old(behind) + MAC_SIZE, |src| - End())
    {
      if n > 0 {
        ReadData(p, n);
        return Data;
      }
      r := ReadTag();
    }

    method ReadData(p: array<byte>, n: nat)
      requires Valid() && n <= p.Length && n <= End() - pos
      requires p != stream.counter && p != stream.buffer
      modifies this`pos, this`mac, stream`pos, stream`used, stream.counter, stream.buffer, p
      ensures Valid() && pos == old(pos) + n
      ensures p[..n] == Masked(keys.E, 0, src)[old(pos)..pos]
    {
      MaskedPart(keys.E, src, pos, n);
      FrontGrows(src, pos, n);
      DecryptChunk(p, src[pos..pos + n]);
      pos := pos + n;
    }

    /** Reads a chunk, feeds it to the MAC and decrypts it in place. */
    method DecryptChunk(p: array<byte>, chunk: bytes)
      requires stream.Valid() && |chunk| <= p.Length && p != stream.counter && p != stream.buffer
      modifies this`mac, stream`pos, stream`used, stream.counter, stream.buffer, p
      ensures stream.Valid() && stream.used == old(stream.used) + |chunk| && mac == old(mac) + chunk
      ensures p[..|chunk|] == Masked(stream.E, old(stream.used), chunk)
    {
      CopyTo(p, chunk);
      mac := mac + p[..|chunk|];
      stream.XORKeyStream(p, p, |chunk|);
    }

    method CopyTo(p: array<byte>, data: bytes)
      requires |data| <= p.Length
      modifies p
      ensures p[..|data|] == data
    {
      forall i | 0 <= i < |data| {
        p[i] := data[i];
      }
    }

    method ReadTag() returns (r: ReadResult)
      requires Valid() && pos == End()
      modifies this`behind
      ensures Valid() && r == Check(keys, src, End(), old(behind))
      ensures behind == Min(old(behind) + MAC_SIZE, |src| - End())
    {
      var at := pos + behind;
      behind := Min(behind + MAC_SIZE, |src| - pos);
      if |src| < at + MAC_SIZE {
        return Truncated;
      }
      var expected := src[at..at + MAC_SIZE];
      return if Tag(keys, mac) == expected then Verified else Tampered;
    }
  }

  lemma FrontGrows(s: bytes, pos: nat, n: nat)
    requires pos + n <= |s|
    ensures s[..pos + n] == s[..pos] + s[pos..pos + n]
  {
  }

  lemma MaskedPart(E: BlockCipher, data: bytes, pos: nat, n: nat)
    requires pos + n <= |data|
    ensures Masked(E, 0, data)[pos..pos + n] == Masked(E, pos, data[pos..pos + n])
  {
  }

  /** When `newAes256Reader` accepts: the salt and the verification value are there and match, and the
      compressed size has room for the overhead. */
  predicate Opens(derive: bytes -> AesKeys, src: bytes, compressedSize: int) {
    && |src| >= SALT_SIZE + PVV_SIZE && compressedSize >= OVERHEAD
    && src[SALT_SIZE..SALT_SIZE + PVV_SIZE] == derive(src[..SALT_SIZE]).pvv
  }

  method OpenReader(derive: bytes -> AesKeys, src: bytes, compressedSize: int) returns (r: AesReader?)
    ensures r != null <==> Opens(derive, src, compressedSize)
    ensures r != null ==> fresh(r) && r.Valid() && r.pos == 0 && r.behind == 0 && r.keys == derive(src[..SALT_SIZE])
                          && r.src == src[SALT_SIZE + PVV_SIZE..] && r.dataSize == compressedSize - OVERHEAD
  {
    if |src| < SALT_SIZE + PVV_SIZE {
      return null;
    }
    var keys := derive(src[..SALT_SIZE]);
    if src[SALT_SIZE..SALT_SIZE + PVV_SIZE] != keys.pvv || compressedSize < OVERHEAD {
      return null;
    }
    r := new AesReader(keys, src[SALT_SIZE + PVV_SIZE..], compressedSize - OVERHEAD);
  }

  /** What was sealed is accepted with its own compressed size; the reads give the data, whatever the
      sizes of the single writes and reads; the first read at the end verifies the MAC, and another one
      reports a truncated file.  For another size the reader does not stop where the data does. */
  lemma SealedReadsBack(derive: bytes -> AesKeys, salt: bytes, plain: bytes, compressedSize: int)
    requires |salt| == SALT_SIZE && KeysOk(derive(salt))
    ensures var k := derive(salt);
            var src := Sealed(k, salt, plain);
            var body, n := src[SALT_SIZE + PVV_SIZE..], |plain|;
            && src[..SALT_SIZE] == salt && |src| == n + OVERHEAD
            && (compressedSize == |src| ==> Opens(derive, src, compressedSize))
            && body[..n] == Masked(k.E, 0, plain) && Masked(k.E, 0, body)[..n] == plain
            && Check(k, body, n, 0) == Verified && Check(k, body, n, MAC_SIZE) == Truncated
            && (compressedSize - OVERHEAD == n <==> compressedSize == |src|)
  {
    var k := derive(salt);
    var c := Masked(k.E, 0, plain);
    var src := Sealed(k, salt, plain);
    assert |k.mac(c)| == 20;
    assert src == salt + (k.pvv + (c + Tag(k, c)));
    assert src[SALT_SIZE..SALT_SIZE + PVV_SIZE] == k.pvv;
    var body := src[SALT_SIZE + PVV_SIZE..];
    assert body == c + Tag(k, c);
    assert body[..|plain|] == c && body[|plain|..|plain| + MAC_SIZE] == Tag(k, c);
    MaskedTwice(k.E, 0, plain);
    MaskedPart(k.E, body, 0, |plain|);
    assert Masked(k.E, 0, body)[0..|plain|] == Masked(k.E, 0, body)[..|plain|];
    assert body[0..|plain|] == c;
  }

  /** Where everything stands: 16 bytes of salt, two of the verification value, the data masked from the
      first counter on, and half of the MAC over that. */
  lemma SealedLayout(k: AesKeys, salt: bytes, plain: bytes)
    requires |salt| == 16 && |k.pvv| == 2 && forall d :: |k.mac(d)| == 20
    ensures var s, n := Sealed(k, salt, plain), |plain|;
            && |s| == n + 28 && s[..16] == salt && s[16..18] == k.pvv && s[18..18 + n] == Masked(k.E, 0, plain)
            && s[18 + n..] == k.mac(s[18..18 + n])[..10]
  {
    var c := Masked(k.E, 0, plain);
    SealedParts(salt, k.pvv, c, Tag(k, c));
  }

  lemma SealedParts(a: bytes, b: bytes, c: bytes, d: bytes)
    requires |a| == 16 && |b| == 2
    ensures var s := a + b + c + d;
            s[..16] == a && s[16..18] == b && s[18..18 + |c|] == c && s[18 + |c|..] == d
  {
  }
}
