/** `FileSnapshot`: the state of one entry while it is written, and the headers made from it. */
module Snapshot {
  import opened Wrappers
  import opened Bytes
  import opened Headers
  import opened ExtraField

  const STORE: u16 := 0
  const DEFLATE: u16 := 8
  const DEFLATE64: u16 := 9
  const BZIP2: u16 := 12
  const LZMA: u16 := 14
  const AES_MARKER: u16 := 99

  /** `SizeUnknown`: the size of a source that has to be read to be measured. */
  const SIZE_UNKNOWN: int := -1

  const SLASH: byte := 47

  datatype Config = Config(scheme: u16, levelBits: u16, encryption: Encryption, comment: bytes)

  type ExtraMap = map<u16, bytes>

  /** The fields that later steps read.  `times` are the NTFS time stamps, None when all are zero;
      `extra` is the parsed extra-field map, None when only the raw bytes are known. */
  datatype Snap = Snap(
    name: bytes, isDir: bool, isImplicit: bool,
    time: u16, date: u16, madeBy: u16, attrs: u32,
    config: Config, usize: int, csize: int, offset: int, crc: u32, flags: u16,
    times: Option<(u64, u64, u64)>, extra: Option<ExtraMap>, extraRaw: bytes)

  function EntryName(s: Snap): bytes {
    if s.isDir then s.name + [SLASH] else s.name
  }

  /** `ResetEncodeOptions`, applied to entries whose declared size is zero. */
  function Reset(s: Snap): Snap {
    s.(config := s.config.(scheme := STORE, levelBits := 0, encryption := NotEncrypted))
  }

  // The general purpose flags: encryption, a data descriptor follows, names are UTF-8.
  const ENCRYPTED: nat := 0
  const DESCRIPTOR: nat := 3
  const UTF8: nat := 11

  /** The flags with bit `k` switched on. */
  function SetBit(flags: nat, k: nat): nat
    decreases flags, k
  {
    if k == 0 then flags / 2 * 2 + 1 else 2 * SetBit(flags / 2, k - 1) + flags % 2
  }

  lemma {:induction false} SetBitFits(flags: nat, k: nat, n: nat)
    requires flags < Pow2(n) && k < n
    ensures SetBit(flags, k) < Pow2(n)
    decreases k
  {
    if k > 0 {
      SetBitFits(flags / 2, k - 1, n - 1);
    }
  }

  /** Switching a bit on leaves the others alone. */
  lemma {:induction false} SetBitExactly(flags: nat, k: nat, j: nat)
    ensures Bit(SetBit(flags, k), j) <==> j == k || Bit(flags, j)
    decreases k
  {
    var r := SetBit(flags, k);
    if k == 0 {
      assert r % 2 == 1 && r / 2 == flags / 2;
    } else {
      assert r % 2 == flags % 2 && r / 2 == SetBit(flags / 2, k - 1);
      if j > 0 {
        SetBitExactly(flags / 2, k - 1, j - 1);
      }
    }
  }

  function On(flags: u16, k: nat): u16
    requires k < 16
  {
    assert Pow2(16) == 0x1_0000 by { Powers(); }
    SetBitFits(flags, k, 16);
    SetBit(flags, k)
  }

  /** `CompressionLevelBits` gives 0, 2, 4 or 6. */
  function SetLevel(flags: u16, levelBits: u16): u16 {
    var f := if Bit(levelBits, 1) then On(flags, 1) else flags;
    if Bit(levelBits, 2) then On(f, 2) else f
  }

  function BitFlag(s: Snap): u16 {
    var f := if s.config.encryption != NotEncrypted then On(s.flags, ENCRYPTED) else s.flags;
    var g := if s.config.scheme == DEFLATE && s.usize != 0 then SetLevel(f, s.config.levelBits) else f;
    On(g, UTF8)
  }

  function StoredScheme(s: Snap): u16 {
    if s.usize == 0 then STORE else if s.config.encryption == Aes256 then AES_MARKER else s.config.scheme
  }

  predicate NeedsZip64(s: Snap) {
    RequiresZip64(s.usize, s.csize, s.offset)
  }

  function VersionNeeded(s: Snap): u16 {
    if s.config.scheme == LZMA then 63
    else if s.config.encryption == Aes256 then 51
    else if s.config.scheme == BZIP2 then 46
    else if NeedsZip64(s) then 45
    else if s.config.scheme == DEFLATE64 then 21
    else if s.config.scheme == DEFLATE || s.isDir || SLASH in s.name || s.config.encryption == ZipCrypto then 20
    else 10
  }

  /** `uint32(min(StandardSizeLimit, v))`: an unknown size wraps around to the limit as well. */
  function Clamp(v: int): u32 {
    ToU32(Min(MAX_UINT32, v))
  }

  function LocalExtra(s: Snap): bytes {
    (if s.usize > MAX_UINT32 || s.csize > MAX_UINT32 then EncodeZip64Local(s.usize, s.csize) else [])
    + (if s.config.encryption == Aes256 then EncodeAes(s.config.scheme) else [])
  }

  function LocalOf(s: Snap): LocalHeader {
    LocalHeader(VersionNeeded(s), BitFlag(s), StoredScheme(s), s.time, s.date, s.crc, Clamp(s.csize), Clamp(s.usize),
                ToU16(|EntryName(s)|), ToU16(|LocalExtra(s)|), EntryName(s), LocalExtra(s))
  }

  /** The central header of an entry whose extra field has been serialized to `extra`. */
  function CentralOf(s: Snap, extra: bytes): CentralHeader {
    CentralHeader(s.madeBy, VersionNeeded(s), BitFlag(s), StoredScheme(s), s.time, s.date, s.crc, Clamp(s.csize),
                  Clamp(s.usize),
                  ToU16(|EntryName(s)|), ToU16(|extra|), ToU16(|s.config.comment|), 0, 0, s.attrs, Clamp(s.offset),
                  EntryName(s), extra, s.config.comment)
  }

  /** The blocks that `addCentralDirEntry` adds to a parsed extra field. */
  function WithBlocks(s: Snap, m: ExtraMap): ExtraMap {
    var m1 := if s.config.encryption == Aes256 then m[AES_TAG := EncodeAes(s.config.scheme)] else m;
    var m2 := if NeedsZip64(s) then m1[ZIP64_TAG := EncodeZip64(s.usize, s.csize, s.offset)] else m1;
    if s.times.Some? then m2[NTFS_TAG := EncodeNtfs(s.times.value.0, s.times.value.1, s.times.value.2)] else m2
  }

  /** Whether a block has to be added at all; with an unparsed extra field the code then assigns into
      a nil map. */
  predicate AddsBlock(s: Snap) {
    s.config.encryption == Aes256 || NeedsZip64(s) || s.times.Some?
  }

  /** `x` is the serialized extra field of the central header of `s`. */
  ghost predicate CentralExtra(s: Snap, x: bytes) {
    if s.extra.None? then x == s.extraRaw && !AddsBlock(s)
    else
      exists ks: seq<u16> ::
        Ascending(ks) && (forall k :: k in ks <==> k in WithBlocks(s, s.extra.value))
          && x == Concat(ks, WithBlocks(s, s.extra.value))
  }

  // ---------------------------------------------------------------- the loaded entry

  datatype Loaded = Loaded(name: bytes, isDir: bool, conf: Conf, crc: u32, comment: bytes, extraRaw: bytes)

  function DecodeText(s: bytes, flags: u16, decode: bytes -> bytes): bytes {
    if Bit(flags, UTF8) then s else decode(s)
  }

  predicate EndsInSlash(s: bytes) {
    s != [] && s[|s| - 1] == SLASH
  }

  function WithoutSlash(s: bytes): bytes {
    if EndsInSlash(s) then s[..|s| - 1] else s
  }

  function SharedOfCentral(h: CentralHeader): Shared {
    Shared(h.flags, h.scheme, h.csize, h.usize, h.offset, h.extra)
  }

  /** `SharedEntryFromLocal`: a local header has no offset. */
  function SharedOfLocal(h: LocalHeader): Shared {
    Shared(h.flags, h.scheme, h.csize, h.usize, 0, h.extra)
  }

  function ConfOf(e: Shared): Conf {
    ScanFrom(e.extra, InitialConf(e), e)
  }

  /** `newFileFromCentralDir`. */
  function FileOf(h: CentralHeader, decode: bytes -> bytes): Loaded {
    var name := DecodeText(h.name, h.flags, decode);
    Loaded(WithoutSlash(name), EndsInSlash(name), ConfOf(SharedOfCentral(h)), h.crc,
           DecodeText(h.comment, h.flags, decode), h.extra)
  }

  /** `newFileFromLocalHeader`. */
  function FileOfLocal(h: LocalHeader, decode: bytes -> bytes): Loaded {
    var name := DecodeText(h.name, h.flags, decode);
    Loaded(WithoutSlash(name), EndsInSlash(name), ConfOf(SharedOfLocal(h)), h.crc, [], h.extra)
  }

  // ---------------------------------------------------------------- flags

  lemma SetLevelKeeps(f: u16, levelBits: u16, k: nat)
    requires k != 1 && k != 2
    ensures Bit(SetLevel(f, levelBits), k) <==> Bit(f, k)
  {
    SetBitExactly(f, 1, k);
    SetBitExactly(if Bit(levelBits, 1) then On(f, 1) else f, 2, k);
  }

  /** The text flag is always on; the encryption flag is on exactly when the entry is encrypted or had
      it before; the descriptor flag is what the writer made it. */
  lemma FlagBits(s: Snap)
    ensures Bit(BitFlag(s), UTF8)
    ensures Bit(BitFlag(s), ENCRYPTED) <==> s.config.encryption != NotEncrypted || Bit(s.flags, ENCRYPTED)
    ensures Bit(BitFlag(s), DESCRIPTOR) <==> Bit(s.flags, DESCRIPTOR)
  {
    forall k | k in {ENCRYPTED, DESCRIPTOR, UTF8}
      ensures Bit(BitFlag(s), k) <==>
              k == UTF8 || (k == ENCRYPTED && s.config.encryption != NotEncrypted) || Bit(s.flags, k)
    {
      var f := if s.config.encryption != NotEncrypted then On(s.flags, ENCRYPTED) else s.flags;
      var g := if s.config.scheme == DEFLATE && s.usize != 0 then SetLevel(f, s.config.levelBits) else f;
      SetBitExactly(s.flags, ENCRYPTED, k);
      SetLevelKeeps(f, s.config.levelBits, k);
      SetBitExactly(g, UTF8, k);
    }
  }

  // ---------------------------------------------------------------- headers

  /** The versions that the features of an entry need (APPNOTE 6.3, section 4.4.3). */
  function FeatureVersions(s: Snap): set<int> {
    {10} + (if s.isDir || SLASH in s.name then {20} else {}) + (if s.config.encryption == ZipCrypto then {20} else {})
    + (if s.config.scheme == 8 then {20} else {}) + (if s.config.scheme == 9 then {21} else {})
    + (if NeedsZip64(s) then {45} else {}) + (if s.config.scheme == 12 then {46} else {})
    + (if s.config.encryption == Aes256 then {51} else {}) + (if s.config.scheme == 14 then {63} else {})
  }

  /** The version in the headers is the greatest of them. */
  lemma VersionIsGreatest(s: Snap)
    ensures VersionNeeded(s) in FeatureVersions(s) && forall v :: v in FeatureVersions(s) ==> v <= VersionNeeded(s)
  {
  }
}
