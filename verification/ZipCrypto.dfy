/** The traditional PKWARE encryption (APPNOTE 6.3, section 6.1): a stream cipher on three 32-bit keys
    that also depend on the plaintext, and the writer and reader around it. */
module ZipCrypto {

  import opened Wrappers
  import opened Bytes

  datatype Keys = Keys(k0: u32, k1: u32, k2: u32)

  /** The word functions of the cipher.  Nothing below depends on what they compute. */
  datatype Words = Words(crc: (u32, byte) -> u32, key1: (u32, u32) -> u32, top: u32 -> byte, magic: u32 -> byte)

  const MAGIC: int := 134775813

  function Xor32(a: u32, b: u32): u32 {
    ToU32(XorBits(32, a, b))
  }

  function CrcStep(table: byte -> u32, k: u32, b: byte): u32 {
    Xor32(table(Xor32(k, b) % 256), k / 256)
  }

  function Key1(k1: u32, k0: u32): u32 {
    ToU32(ToU32(k1 + k0 % 256) * MAGIC + 1)
  }

  function TopByte(k: u32): byte {
    k / 0x100_0000
  }

  function MagicOf(k2: u32): byte {
    var t := WithSecondBit(k2);
    ToU32(t * Xor32(t, 1)) / 256 % 256
  }

  function WithSecondBit(k: u32): (s: u32) {
    if k / 2 % 2 == 1 then k else k + 2
  }

  /** The functions of section 6.1, for a CRC-32 table. */
  function PkwareWords(table: byte -> u32): Words {
    Words((k, b) => CrcStep(table, k, b), Key1, TopByte, MagicOf)
  }

  function Update(w: Words, k: Keys, b: byte): Keys {
    var k0 := w.crc(k.k0, b);
    var k1 := w.key1(k.k1, k0);
    Keys(k0, k1, w.crc(k.k2, w.top(k1)))
  }

  function Initial(): Keys {
    Keys(0x12345678, 0x23456789, 0x34567890)
  }

  // ---------------------------------------------------------------- the cipher on whole byte strings

  /** The byte a plaintext byte is masked with. */
  function Mask(w: Words, k: Keys): byte {
    w.magic(k.k2)
  }

  function After(w: Words, s: Keys, plain: bytes): Keys {
    if plain == [] then s else Update(w, After(w, s, plain[..|plain| - 1]), plain[|plain| - 1])
  }

  /** Byte `i` is masked by the state after the bytes before it. */
  function Encrypted(w: Words, s: Keys, plain: bytes): (c: bytes)
    ensures |c| == |plain|
  {
    if plain == [] then []
    else
      var init, b := plain[..|plain| - 1], plain[|plain| - 1];
      Encrypted(w, s, init) + [Xor(b, Mask(w, After(w, s, init)))]
  }

  function Decrypted(w: Words, s: Keys, cipher: bytes): (p: bytes)
    ensures |p| == |cipher|
  {
    if cipher == [] then []
    else
      var init := Decrypted(w, s, cipher[..|cipher| - 1]);
      init + [Xor(cipher[|cipher| - 1], Mask(w, After(w, s, init)))]
  }

  lemma {:induction false} DecryptEncrypt(w: Words, s: Keys, plain: bytes)
    ensures Decrypted(w, s, Encrypted(w, s, plain)) == plain
  {
    if plain != [] {
      var init, b := plain[..|plain| - 1], plain[|plain| - 1];
      var c := Encrypted(w, s, plain);
      assert c[..|c| - 1] == Encrypted(w, s, init);
      DecryptEncrypt(w, s, init);
      XorTwice(b, Mask(w, After(w, s, init)));
      assert plain == init + [b];
    }
  }

  lemma {:induction false} EncryptDecrypt(w: Words, s: Keys, cipher: bytes)
    ensures Encrypted(w, s, Decrypted(w, s, cipher)) == cipher
  {
    if cipher != [] {
      var init, b := cipher[..|cipher| - 1], cipher[|cipher| - 1];
      var p := Decrypted(w, s, cipher);
      assert p[..|p| - 1] == Decrypted(w, s, init);
      EncryptDecrypt(w, s, init);
      XorTwice(b, Mask(w, After(w, s, Decrypted(w, s, init))));
      assert cipher == init + [b];
    }
  }

  /** Decrypting a prefix gives the same prefix of the plaintext. */
  lemma {:induction false} DecryptPrefix(w: Words, s: Keys, cipher: bytes, n: nat)
    requires n <= |cipher|
    ensures Decrypted(w, s, cipher[..n]) == Decrypted(w, s, cipher)[..n]
  {
    if n == |cipher| {
      assert cipher[..n] == cipher;
    } else {
      var init := cipher[..|cipher| - 1];
      DecryptPrefix(w, s, init, n);
      assert init[..n] == cipher[..n];
      assert Decrypted(w, s, cipher)[..n] == Decrypted(w, s, init)[..n];
    }
  }

  lemma AppendByte(w: Words, s: Keys, plain: bytes, b: byte)
    ensures After(w, s, plain + [b]) == Update(w, After(w, s, plain), b)
    ensures Encrypted(w, s, plain + [b]) == Encrypted(w, s, plain) + [Xor(b, Mask(w, After(w, s, plain)))]
  {
    assert (plain + [b])[..|plain|] == plain;
  }

  /** Byte `k` of the ciphertext, and the state after it. */
  lemma {:induction false} EncryptedAt(w: Words, s: Keys, plain: bytes, k: nat)
    requires k < |plain|
    ensures Encrypted(w, s, plain)[k] == Xor(plain[k], Mask(w, After(w, s, plain[..k])))
    ensures After(w, s, plain[..k + 1]) == Update(w, After(w, s, plain[..k]), plain[k])
  {
    assert plain[..k + 1][..k] == plain[..k];
    if k < |plain| - 1 {
      EncryptedAt(w, s, plain[..|plain| - 1], k);
      assert plain[..|plain| - 1][..k] == plain[..k];
    } else {
      assert plain[..k + 1] == plain;
    }
  }

  lemma DecryptedAt(w: Words, s: Keys, cipher: bytes, k: nat)
    requires k < |cipher|
    ensures var p := Decrypted(w, s, cipher);
            && p[k] == Xor(cipher[k], Mask(w, After(w, s, p[..k])))
            && After(w, s, p[..k + 1]) == Update(w, After(w, s, p[..k]), p[k])
  {
    var p := Decrypted(w, s, cipher);
    EncryptDecrypt(w, s, cipher);
    EncryptedAt(w, s, p, k);
    XorTwice(p[k], Mask(w, After(w, s, p[..k])));
  }

  /** The state after the first `k` bytes. */
  function StateAt(w: Words, s: Keys, plain: bytes, k: nat): Keys
    requires k <= |plain|
    decreases k
  {
    if k == 0 then s else Update(w, StateAt(w, s, plain, k - 1), plain[k - 1])
  }

  lemma {:induction false} StateAtIs(w: Words, s: Keys, plain: bytes, k: nat)
    requires k <= |plain|
    ensures StateAt(w, s, plain, k) == After(w, s, plain[..k])
    decreases k
  {
    if k > 0 {
      StateAtIs(w, s, plain, k - 1);
      assert plain[..k][..k - 1] == plain[..k - 1];
    }
  }

  /** Every byte is exclusive-ored with the mask of the state after the plaintext before it. */
  lemma EncryptedBits(w: Words, s: Keys, plain: bytes, k: nat, j: nat)
    requires k < |plain| && j < 8
    ensures Bit(Encrypted(w, s, plain)[k], j) <==>
              (Bit(plain[k], j) <==> !Bit(w.magic(After(w, s, plain[..k]).k2), j))
  {
    EncryptedAt(w, s, plain, k);
    XorIff(plain[k], Mask(w, After(w, s, plain[..k])), j);
  }

  lemma StateAtEnd(w: Words, s: Keys, plain: bytes, n: nat)
    requires n == |plain|
    ensures StateAt(w, s, plain, n) == After(w, s, plain)
  {
    StateAtIs(w, s, plain, n);
    AllOf(plain, n);
  }

  lemma EncryptedWith(w: Words, s: Keys, plain: bytes, k: nat)
    requires k < |plain|
    ensures Encrypted(w, s, plain)[k] == Xor(plain[k], Mask(w, StateAt(w, s, plain, k)))
  {
    EncryptedAt(w, s, plain, k);
    StateAtIs(w, s, plain, k);
  }

  lemma DecryptedWith(w: Words, s: Keys, cipher: bytes, k: nat)
    requires k < |cipher|
    ensures Decrypted(w, s, cipher)[k] == Xor(cipher[k], Mask(w, StateAt(w, s, Decrypted(w, s, cipher), k)))
  {
    DecryptedAt(w, s, cipher, k);
    StateAtIs(w, s, Decrypted(w, s, cipher), k);
  }

  /** One string after another is the same as both at once. */
  lemma {:induction false} Chunks(w: Words, s: Keys, a: bytes, b: bytes)
    ensures After(w, s, a + b) == After(w, After(w, s, a), b)
    ensures Encrypted(w, s, a + b) == Encrypted(w, s, a) + Encrypted(w, After(w, s, a), b)
  {
    if b == [] {
      assert a + b == a;
    } else {
      var init, x := b[..|b| - 1], b[|b| - 1];
      Chunks(w, s, a, init);
      assert a + b == (a + init) + [x] && b == init + [x];
      AppendByte(w, s, a + init, x);
      AppendByte(w, After(w, s, a), init, x);
      Associate(Encrypted(w, s, a), Encrypted(w, After(w, s, a), init), [Xor(x, Mask(w, After(w, s, a + init)))]);
    }
  }

  lemma {:induction false} DecryptChunks(w: Words, s: Keys, a: bytes, b: bytes)
    ensures Decrypted(w, s, a + b) == Decrypted(w, s, a) + Decrypted(w, After(w, s, Decrypted(w, s, a)), b)
  {
    var p := Decrypted(w, s, a) + Decrypted(w, After(w, s, Decrypted(w, s, a)), b);
    Chunks(w, s, Decrypted(w, s, a), Decrypted(w, After(w, s, Decrypted(w, s, a)), b));
    EncryptDecrypt(w, s, a);
    EncryptDecrypt(w, After(w, s, Decrypted(w, s, a)), b);
    assert Encrypted(w, s, p) == a + b;
    DecryptEncrypt(w, s, p);
  }

  // ---------------------------------------------------------------- the cipher object

  class ZipCipher {
    const words: Words
    var k0: u32
    var k1: u32
    var k2: u32

    function State(): Keys
      reads this
    {
      Keys(k0, k1, k2)
    }

    constructor (words: Words, password: bytes)
      ensures this.words == words && State() == After(words, Initial(), password)
    {
      this.words := words;
      k0, k1, k2 := 0x12345678, 0x23456789, 0x34567890;
      new;
      for i := 0 to |password|
        invariant this.words == words && State() == After(words, Initial(), password[..i])
      {
        assert password[..i + 1] == password[..i] + [password[i]];
        AppendByte(words, Initial(), password[..i], password[i]);
        UpdateKeys(password[i]);
      }
      assert password[..|password|] == password;
    }

    method UpdateKeys(b: byte)
      modifies this
      ensures State() == Update(words, old(State()), b)
    {
      k0 := words.crc(k0, b);
      k1 := words.key1(k1, k0);
      k2 := words.crc(k2, words.top(k1));
    }

    method MagicByte() returns (m: byte)
      ensures m == Mask(words, State())
    {
      m := words.magic(k2);
    }

    method EncryptByte(b: byte) returns (c: byte)
      modifies this
      ensures c == Xor(b, Mask(words, old(State()))) && State() == Update(words, old(State()), b)
    {
      var k := MagicByte();
      UpdateKeys(b);
      c := Xor(b, k);
    }

    method DecryptByte(c: byte) returns (b: byte)
      modifies this
      ensures b == Xor(c, Mask(words, old(State()))) && State() == Update(words, old(State()), b)
    {
      var k := MagicByte();
      b := Xor(c, k);
      UpdateKeys(b);
    }

    /** One round of the loop over a slice. */
    method EncryptAt(buf: array<byte>, i: nat, ghost lo: nat, ghost hi: nat, ghost before: bytes, ghost s: Keys)
      requires lo <= i < hi <= buf.Length == |before|
      requires var c := Encrypted(words, s, before[lo..hi]);
               buf[..] == Replaced(before, c, lo, i) && State() == StateAt(words, s, before[lo..hi], i - lo)
      modifies this, buf
      ensures var c := Encrypted(words, s, before[lo..hi]);
              buf[..] == Replaced(before, c, lo, i + 1) && State() == StateAt(words, s, before[lo..hi], i + 1 - lo)
    {
      EncryptedWith(words, s, before[lo..hi], i - lo);
      ReplacedNext(before, Encrypted(words, s, before[lo..hi]), lo, i, hi);
      var c := EncryptByte(buf[i]);
      buf[i] := c;
    }

    method DecryptAt(buf: array<byte>, i: nat, ghost lo: nat, ghost hi: nat, ghost before: bytes, ghost s: Keys)
      requires lo <= i < hi <= buf.Length == |before|
      requires var p := Decrypted(words, s, before[lo..hi]);
               buf[..] == Replaced(before, p, lo, i) && State() == StateAt(words, s, p, i - lo)
      modifies this, buf
      ensures var p := Decrypted(words, s, before[lo..hi]);
              buf[..] == Replaced(before, p, lo, i + 1) && State() == StateAt(words, s, p, i + 1 - lo)
    {
      DecryptedWith(words, s, before[lo..hi], i - lo);
      ReplacedNext(before, Decrypted(words, s, before[lo..hi]), lo, i, hi);
      var b := DecryptByte(buf[i]);
      buf[i] := b;
    }

    /** Encrypts `buf[lo..hi]` in place. */
    method Encrypt(buf: array<byte>, lo: nat, hi: nat)
      requires lo <= hi <= buf.Length
      modifies this, buf
      ensures buf[..] == old(buf[..])[..lo] + Encrypted(words, old(State()), old(buf[..])[lo..hi]) + old(buf[..])[hi..]
      ensures State() == After(words, old(State()), old(buf[..])[lo..hi])
    {
      ghost var before, s := buf[..], State();
      EncryptAll(buf, lo, hi, before, s);
      ReplacedAll(before, Encrypted(words, s, before[lo..hi]), lo, hi);
      StateAtEnd(words, s, before[lo..hi], hi - lo);
    }

    method EncryptAll(buf: array<byte>, lo: nat, hi: nat, ghost before: bytes, ghost s: Keys)
      requires lo <= hi <= buf.Length && buf[..] == before && State() == s
      modifies this, buf
      ensures buf[..] == Replaced(before, Encrypted(words, s, before[lo..hi]), lo, hi)
      ensures State() == StateAt(words, s, before[lo..hi], hi - lo)
    {
      for i := lo to hi
        invariant buf[..] == Replaced(before, Encrypted(words, s, before[lo..hi]), lo, i)
        invariant State() == StateAt(words, s, before[lo..hi], i - lo)
      {
        EncryptAt(buf, i, lo, hi, before, s);
      }
    }

    method Decrypt(buf: array<byte>, lo: nat, hi: nat)
      requires lo <= hi <= buf.Length
      modifies this, buf
      ensures buf[..] == old(buf[..])[..lo] + Decrypted(words, old(State()), old(buf[..])[lo..hi]) + old(buf[..])[hi..]
      ensures State() == After(words, old(State()), Decrypted(words, old(State()), old(buf[..])[lo..hi]))
    {
      ghost var before, s := buf[..], State();
      DecryptAll(buf, lo, hi, before, s);
      ReplacedAll(before, Decrypted(words, s, before[lo..hi]), lo, hi);
      StateAtEnd(words, s, Decrypted(words, s, before[lo..hi]), hi - lo);
    }

    method DecryptAll(buf: array<byte>, lo: nat, hi: nat, ghost before: bytes, ghost s: Keys)
      requires lo <= hi <= buf.Length && buf[..] == before && State() == s
      modifies this, buf
      ensures buf[..] == Replaced(before, Decrypted(words, s, before[lo..hi]), lo, hi)
      ensures State() == StateAt(words, s, Decrypted(words, s, before[lo..hi]), hi - lo)
    {
      for i := lo to hi
        invariant buf[..] == Replaced(before, Decrypted(words, s, before[lo..hi]), lo, i)
        invariant State() == StateAt(words, s, Decrypted(words, s, before[lo..hi]), i - lo)
      {
        DecryptAt(buf, i, lo, hi, before, s);
      }
    }
  }

  /** The contents while the bytes from `lo` on are replaced one by one, up to `i`. */
  function Replaced(before: bytes, changed: bytes, lo: nat, i: nat): (r: bytes)
    requires lo <= i <= |before| && i - lo <= |changed|
    ensures |r| == |before|
    decreases i
  {
    if i == lo then before else Replaced(before, changed, lo, i - 1)[i - 1 := changed[i - 1 - lo]]
  }

  lemma {:induction false} ReplacedIs(before: bytes, changed: bytes, lo: nat, i: nat)
    requires lo <= i <= |before| && i - lo <= |changed|
    ensures Replaced(before, changed, lo, i) == before[..lo] + changed[..i - lo] + before[i..]
    decreases i
  {
    if i > lo {
      ReplacedIs(before, changed, lo, i - 1);
    }
  }

  lemma ReplacedAll(before: bytes, changed: bytes, lo: nat, hi: nat)
    requires lo <= hi <= |before| && |changed| == hi - lo
    ensures Replaced(before, changed, lo, hi) == before[..lo] + changed + before[hi..]
  {
    ReplacedIs(before, changed, lo, hi);
    AllOf(changed, hi - lo);
  }

  lemma ReplacedNext(before: bytes, changed: bytes, lo: nat, i: nat, hi: nat)
    requires lo <= i < hi <= |before| && |changed| == hi - lo
    ensures Replaced(before, changed, lo, i)[i] == before[i] == before[lo..hi][i - lo]
    ensures Replaced(before, changed, lo, i)[i := changed[i - lo]] == Replaced(before, changed, lo, i + 1)
  {
    ReplacedIs(before, changed, lo, i);
  }

  lemma AllOf(s: bytes, n: nat)
    requires |s| == n
    ensures s[..n] == s
  {
  }

  // ---------------------------------------------------------------- writer and reader

  const HEADER_SIZE: nat := 12

  function Start(w: Words, password: bytes): Keys {
    After(w, Initial(), password)
  }

  /** Encrypts a copy. */
  method EncryptCopy(cipher: ZipCipher, plain: bytes) returns (out: bytes)
    modifies cipher
    ensures out == Encrypted(cipher.words, old(cipher.State()), plain)
    ensures cipher.State() == After(cipher.words, old(cipher.State()), plain)
  {
    var buf := new byte[|plain|];
    Fill(buf, plain);
    Whole(buf[..], plain);
    cipher.Encrypt(buf, 0, |plain|);
    out := buf[..];
    Whole(out, Encrypted(cipher.words, old(cipher.State()), plain));
  }

  /** Copies `data` to the front of an array. */
  method Fill(buf: array<byte>, data: bytes)
    requires |data| <= buf.Length
    modifies buf
    ensures buf[..|data|] == data
  {
    forall i | 0 <= i < |data| {
      buf[i] := data[i];
    }
  }

  lemma Whole(s: bytes, t: bytes)
    ensures s[..|s|] == s && s[0..|s|] == s
    ensures |s| == |t| ==> s[..0] + t + s[|t|..] == t
  {
  }

  class ZipCryptoWriter {
    const password: bytes
    const cipher: ZipCipher
    var dest: bytes
    /** Everything encrypted so far, the header included. */
    ghost var plain: bytes

    ghost predicate Valid()
      reads this, cipher
    {
      && dest == Encrypted(cipher.words, Start(cipher.words, password), plain)
      && cipher.State() == After(cipher.words, Start(cipher.words, password), plain)
    }

    /** Encrypts eleven random bytes and the check byte in front of the data. */
    constructor (words: Words, password: bytes, random: bytes, checkByte: byte)
      requires |random| == HEADER_SIZE
      ensures Valid() && fresh(cipher) && cipher.words == words && this.password == password
      ensures plain == random[HEADER_SIZE - 1 := checkByte]
    {
      var c := new ZipCipher(words, password);
      var header := EncryptCopy(c, random[HEADER_SIZE - 1 := checkByte]);
      this.password, cipher, plain, dest := password, c, random[HEADER_SIZE - 1 := checkByte], header;
    }

    /** Encrypts a copy, so that the caller's buffer stays as it is. */
    method Write(p: array<byte>)
      requires Valid()
      modifies this`dest, this`plain, cipher
      ensures Valid() && plain == old(plain) + p[..]
    {
      Chunks(cipher.words, Start(cipher.words, password), plain, p[..]);
      var out := EncryptCopy(cipher, p[..]);
      dest := dest + out;
      plain := plain + p[..];
    }
  }

  /** The check of the last header byte: the time is used when the header was written before the CRC
      was known. */
  function ExpectedByte(descriptor: bool, crc: u32, time: u16): byte {
    if descriptor then time / 256 else crc / 0x100_0000
  }

  predicate Accepts(w: Words, password: bytes, src: bytes, expected: byte) {
    |src| >= HEADER_SIZE && Decrypted(w, Start(w, password), src[..HEADER_SIZE])[HEADER_SIZE - 1] == expected
  }

  class ZipCryptoReader {
    const password: bytes
    const src: bytes
    const cipher: ZipCipher
    var pos: nat

    ghost predicate Valid()
      reads this, cipher
    {
      pos <= |src| && cipher.State() == After(cipher.words, Start(cipher.words, password), Plain()[..pos])
    }

    ghost function Plain(): (p: bytes)
      ensures |p| == |src|
    {
      Decrypted(cipher.words, Start(cipher.words, password), src)
    }

    constructor (password: bytes, src: bytes, cipher: ZipCipher)
      requires |src| >= HEADER_SIZE
      requires cipher.State() == After(cipher.words, Start(cipher.words, password),
                                       Decrypted(cipher.words, Start(cipher.words, password), src[..HEADER_SIZE]))
      ensures Valid() && this.src == src && this.cipher == cipher && this.password == password && pos == HEADER_SIZE
    {
      this.password, this.src, this.cipher, pos := password, src, cipher, HEADER_SIZE;
      DecryptPrefix(cipher.words, Start(cipher.words, password), src, HEADER_SIZE);
    }

    /** Decrypts in place the `n` bytes the source gives; how many that are is up to the source. */
    method Read(p: array<byte>, n: nat)
      requires Valid() && n <= p.Length && n <= |src| - pos
      modifies this`pos, cipher, p
      ensures Valid() && pos == old(pos) + n
      ensures p[..n] == Plain()[old(pos)..pos]
    {
      var end := pos + n;
      ghost var d, next := NextPart(n, end);
      DecryptTo(cipher, p, n, src[pos..end], d, next);
      pos := end;
    }

    /** What the bytes up to `end` decrypt to, and the state of the cipher behind them. */
    lemma NextPart(n: nat, end: nat) returns (d: bytes, next: Keys)
      requires Valid() && end == pos + n <= |src|
      ensures d == Decrypted(cipher.words, cipher.State(), src[pos..end]) == Plain()[pos..end]
      ensures next == After(cipher.words, cipher.State(), d)
      ensures next == After(cipher.words, Start(cipher.words, password), Plain()[..end])
    {
      NextChunk(cipher.words, Start(cipher.words, password), src, pos, n, cipher.State());
      d, next := Plain()[pos..end], After(cipher.words, Start(cipher.words, password), Plain()[..end]);
    }
  }

  /** The same for a chunk of `n` bytes whose plaintext and last state are known. */
  method DecryptTo(cipher: ZipCipher, p: array<byte>, n: nat, chunk: bytes, ghost d: bytes, ghost next: Keys)
    requires |chunk| == n <= p.Length && d == Decrypted(cipher.words, cipher.State(), chunk)
    requires next == After(cipher.words, cipher.State(), d)
    modifies cipher, p
    ensures p[..n] == d && cipher.State() == next
  {
    DecryptInto(cipher, p, chunk);
  }

  /** Copies a chunk to the front of an array and decrypts it there. */
  method DecryptInto(cipher: ZipCipher, p: array<byte>, chunk: bytes)
    requires |chunk| <= p.Length
    modifies cipher, p
    ensures p[..|chunk|] == Decrypted(cipher.words, old(cipher.State()), chunk)
    ensures cipher.State() == After(cipher.words, old(cipher.State()),
                                    Decrypted(cipher.words, old(cipher.State()), chunk))
  {
    Fill(p, chunk);
    ghost var before := p[..];
    assert before[0..|chunk|] == chunk;
    cipher.Decrypt(p, 0, |chunk|);
    FrontOf(before, Decrypted(cipher.words, old(cipher.State()), chunk), |chunk|);
    assert p[..|chunk|] == p[..][..|chunk|];
  }

  lemma FrontOf(before: bytes, d: bytes, n: nat)
    requires n <= |before| && |d| == n
    ensures (before[..0] + d + before[n..])[..n] == d
  {
  }

  lemma Tail(p: bytes, pos: nat, n: nat, d: bytes)
    requires pos + n <= |p| && p[..pos + n] == p[..pos] + d
    ensures p[pos..pos + n] == d
  {
    assert p[pos..pos + n] == p[..pos + n][pos..];
  }

  /** The plaintext of a longer part is that of a part with the chunk behind it decrypted on. */
  lemma Joined(w: Words, s: Keys, src: bytes, pos: nat, n: nat)
    requires pos + n <= |src|
    ensures Decrypted(w, s, src[..pos + n]) ==
            Decrypted(w, s, src[..pos]) + Decrypted(w, After(w, s, Decrypted(w, s, src[..pos])), src[pos..pos + n])
  {
    assert src[..pos] + src[pos..pos + n] == src[..pos + n];
    DecryptChunks(w, s, src[..pos], src[pos..pos + n]);
  }

  /** The next chunk, decrypted with the state reached so far, is the next part of the plaintext. */
  lemma PlainChunk(w: Words, s: Keys, src: bytes, pos: nat, n: nat)
    requires pos + n <= |src|
    ensures var p := Decrypted(w, s, src);
            var d := Decrypted(w, After(w, s, p[..pos]), src[pos..pos + n]);
            d == p[pos..pos + n] && After(w, After(w, s, p[..pos]), d) == After(w, s, p[..pos + n])
  {
    var p := Decrypted(w, s, src);
    DecryptPrefix(w, s, src, pos);
    DecryptPrefix(w, s, src, pos + n);
    Joined(w, s, src, pos, n);
    ChunkIs(w, s, p, pos, n, Decrypted(w, After(w, s, p[..pos]), src[pos..pos + n]));
  }

  lemma ChunkIs(w: Words, s: Keys, p: bytes, pos: nat, n: nat, d: bytes)
    requires pos + n <= |p| && p[..pos + n] == p[..pos] + d
    ensures d == p[pos..pos + n] && After(w, After(w, s, p[..pos]), d) == After(w, s, p[..pos + n])
  {
    Tail(p, pos, n, d);
    Chunks(w, s, p[..pos], d);
  }

  lemma NextChunk(w: Words, s: Keys, src: bytes, pos: nat, n: nat, state: Keys)
    requires pos + n <= |src| && state == After(w, s, Decrypted(w, s, src)[..pos])
    ensures var p, d := Decrypted(w, s, src), Decrypted(w, state, src[pos..pos + n]);
            d == p[pos..pos + n] && After(w, state, d) == After(w, s, p[..pos + n])
  {
    PlainChunk(w, s, src, pos, n);
  }

  /** `newZipCryptoReader`: null when the source is too short or the check byte does not match. */
  method OpenReader(w: Words, password: bytes, src: bytes, descriptor: bool, crc: u32,
                    time: u16) returns (r: ZipCryptoReader?)
    ensures r != null <==> Accepts(w, password, src, ExpectedByte(descriptor, crc, time))
    ensures r != null ==> fresh(r) && fresh(r.cipher) && r.Valid() && r.pos == HEADER_SIZE
                          && r.src == src && r.password == password && r.cipher.words == w
  {
    var cipher := new ZipCipher(w, password);
    if |src| < HEADER_SIZE {
      return null;
    }
    var header := new byte[HEADER_SIZE];
    DecryptInto(cipher, header, src[..HEADER_SIZE]);
    if header[HEADER_SIZE - 1] != ExpectedByte(descriptor, crc, time) {
      return null;
    }
    r := new ZipCryptoReader(password, src, cipher);
  }

  /** What was written with a password is accepted with it exactly when the check byte is the one the
      reader expects, and then all that follows the header decrypts to the data, whatever the sizes of
      the single writes and reads. */
  lemma ReadsBackIff(w: Words, password: bytes, plain: bytes, expected: byte)
    requires |plain| >= HEADER_SIZE
    ensures var src := Encrypted(w, Start(w, password), plain);
            && (Accepts(w, password, src, expected) <==> plain[HEADER_SIZE - 1] == expected)
            && Decrypted(w, Start(w, password), src) == plain
  {
    var s := Start(w, password);
    var src := Encrypted(w, s, plain);
    DecryptEncrypt(w, s, plain);
    DecryptPrefix(w, s, src, HEADER_SIZE);
  }

  /** The reader takes the high byte of the checksum, or that of the time if a descriptor follows: what
      was written with that byte is accepted, and with any other one it is not. */
  lemma WrittenAccepted(w: Words, password: bytes, random: bytes, check: byte, data: bytes, crc: u32, time: u16)
    requires |random| == 12
    ensures var src := Encrypted(w, Start(w, password), random[11 := check] + data);
            && (Accepts(w, password, src, ExpectedByte(false, crc, time)) <==> check == crc / 256 / 256 / 256)
            && (Accepts(w, password, src, ExpectedByte(true, crc, time)) <==> check == time / 256)
  {
    var plain := random[11 := check] + data;
    ReadsBackIff(w, password, plain, ExpectedByte(false, crc, time));
    ReadsBackIff(w, password, plain, ExpectedByte(true, crc, time));
  }
}
