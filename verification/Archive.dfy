/** Reading an archive back: `zipReader`, and what it finds in a file that `zipWriter` has written. */
module Archive {
  import opened Wrappers
  import opened Bytes
  import opened Headers
  import opened ExtraField
  import opened EndRecords
  import opened Snapshot
  import opened Writer
  import L = Layouts
  import opened Repeat

  // ---------------------------------------------------------------- the central directory

  /** One directory entry, with its signature, and the bytes behind it. */
  function ReadEntry(src: bytes): Option<(CentralHeader, bytes)> {
    if SignatureAt(src, 0, CENTRAL_SIGNATURE) then ReadCentral(src[4..]) else None
  }

  /** The bytes a section reader at this offset gives. */
  function From(file: bytes, offset: u64): bytes {
    var o := ToInt64(offset);
    if 0 <= o <= |file| then file[o..] else []
  }

  method ReadCentralDir(file: bytes, offset: u64, entriesNum: u64) returns (r: Option<seq<CentralHeader>>)
    ensures r == ReadN(ReadEntry, From(file, offset), entriesNum)
  {
    var files: seq<CentralHeader> := [];
    var src := From(file, offset);
    PrependNone(ReadN(ReadEntry, src, entriesNum));
    for i := 0 to entriesNum
      invariant Prepend(files, ReadN(ReadEntry, src, entriesNum - i)) ==
                ReadN(ReadEntry, From(file, offset), entriesNum)
    {
      var entry := ReadEntry(src);
      if entry.None? {
        return None;
      }
      PrependTwice(files, [entry.value.0], ReadN(ReadEntry, entry.value.1, entriesNum - i - 1));
      files := files + [entry.value.0];
      src := entry.value.1;
    }
    assert files + [] == files;
    return Some(files);
  }

  /** The length fields of the header are the lengths of what follows. */
  predicate CentralFits(h: CentralHeader) {
    h.nameLen == |h.name| && h.extraLen == |h.extra| && h.commentLen == |h.comment|
  }

  function CentralOfRecord(r: Record): CentralHeader { r.central }

  function CentralBytes(r: Record): bytes { EncodeCentral(r.central) }

  function Centrals(log: seq<Record>): seq<CentralHeader> {
    Map(CentralOfRecord, log)
  }

  lemma {:induction false} CentralIsEncoded(log: seq<Record>)
    ensures Central(log) == EncodeAll(CentralBytes, log)
  {
    if log != [] {
      CentralIsEncoded(log[..|log| - 1]);
    }
  }

  /** The directory section reads back as the headers written, whatever follows it. */
  lemma DirectoryRoundTrip(log: seq<Record>, rest: bytes)
    requires forall r :: r in log ==> CentralFits(r.central)
    ensures ReadN(ReadEntry, Central(log) + rest, |log|) == Some(Centrals(log))
  {
    CentralIsEncoded(log);
    forall r, t | r in log
      ensures ReadEntry(CentralBytes(r) + t) == Some((CentralOfRecord(r), t))
    {
      CentralRoundTrip(r.central, t);
    }
    ReadWrittenItems(ReadEntry, CentralBytes, CentralOfRecord, log, rest, 0);
    assert Centrals(log) + [] == Centrals(log);
  }

  // ---------------------------------------------------------------- the data of an entry

  /** Where the data begins, behind the local header at `h`. */
  function DataOffset(file: bytes, h: nat): nat
    requires h + 30 <= |file|
  {
    h + 30 + U16(file[h + 26..h + 28]) + U16(file[h + 28..h + 30])
  }

  /** `getRawDataStream`: skips the local header and gives at most `size` bytes; for a negative size the
      limit of the section reader overflows, and it gives everything. */
  function RawData(file: bytes, headerOffset: int, size: int): Option<bytes> {
    if headerOffset < 0 || headerOffset + 30 > |file| || !SignatureAt(file, headerOffset, LOCAL_SIGNATURE) then None
    else
      var at := DataOffset(file, headerOffset);
      if at > |file| then Some([])
      else if size < 0 then Some(file[at..])
      else Some(file[at..Min(at + size, |file|)])
  }

  /** Data is given for any offset with the signature and room for a header, however little there is.  If
      it lacks something of what was asked for, or a negative size was, it goes on to the end of the file. */
  lemma RawDataGiven(file: bytes, offset: int, size: int)
    ensures RawData(file, offset, size).Some? <==>
            0 <= offset && offset + 30 <= |file| && file[offset..offset + 4] == [0x50, 0x4B, 3, 4]
    ensures RawData(file, offset, size).Some? ==>
              var (d, at) := (RawData(file, offset, size).value,
                              offset + 30 + U16(file[offset + 26..offset + 28]) + U16(file[offset + 28..offset + 30]));
              && (size >= 0 ==> |d| <= size) && (at > |file| ==> d == [])
              && (at <= |file| ==> d == file[at..at + |d|] && (|d| == size || at + |d| == |file|))
  {
    if 0 <= offset && offset + 30 <= |file| {
      SignatureBytes(file, offset, LOCAL_SIGNATURE);
      L.Signatures();
    }
  }

  lemma {:induction false} LogAt(log: seq<Record>, i: nat)
    requires LogOk(log) && i < |log|
    ensures RecordOk(log[i], |Local(log[..i])|)
  {
    if i < |log| - 1 {
      LogAt(log[..|log| - 1], i);
      assert log[..|log| - 1][..i] == log[..i];
    }
  }

  /** Where record `i` stands. */
  function Place(log: seq<Record>, i: nat): nat
    requires i < |log|
  {
    |Local(log[..i])| + |log[i].junk|
  }

  /** There stand its bytes. */
  lemma {:induction false} RecordAt(log: seq<Record>, i: nat, post: bytes)
    requires i < |log|
    ensures var (file, at) := (Local(log) + post, Place(log, i));
            at + |RecordBytes(log[i])| <= |file| && file[at..at + |RecordBytes(log[i])|] == RecordBytes(log[i])
  {
    var init, r := log[..|log| - 1], log[|log| - 1];
    if i < |log| - 1 {
      Associate(Local(init), r.junk + RecordBytes(r), post);
      RecordAt(init, i, r.junk + RecordBytes(r) + post);
      assert init[..i] == log[..i];
    } else {
      Associate(Local(init), r.junk, RecordBytes(r));
      Middle(Local(init) + r.junk, RecordBytes(r), post);
    }
  }

  lemma OffsetAt(log: seq<Record>, i: nat)
    requires LogOk(log) && i < |log|
    ensures log[i].snap.offset == Place(log, i)
  {
    LogAt(log, i);
  }

  predicate LocalFits(h: LocalHeader) {
    h.nameLen == |h.name| && h.extraLen == |h.extra|
  }

  /** Given its offset and its compressed size, the data of every entry comes out exactly: no byte
      more or less.  It does so for no other size, as the end records follow. */
  lemma RawDataIff(log: seq<Record>, i: nat, post: bytes, size: int)
    requires LogOk(log) && i < |log| && LocalFits(log[i].local) && |post| > 0
    ensures RawData(Local(log) + post, log[i].snap.offset, size) == Some(log[i].payload) <==> size == |log[i].payload|
  {
    OffsetAt(log, i);
    RecordAt(log, i, post);
    RecordEndsBefore(log, i, post);
    RawDataAt(Local(log) + post, Place(log, i), log[i], size);
  }

  lemma RawDataAt(file: bytes, at: nat, r: Record, size: int)
    requires LocalFits(r.local) && at + |RecordBytes(r)| < |file| && file[at..at + |RecordBytes(r)|] == RecordBytes(r)
    ensures RawData(file, at, size) == Some(r.payload) <==> size == |r.payload|
  {
    HeaderAt(file, at, r.local, r.payload, r.descriptor);
    DataAt(file, at, RecordBytes(r), r.local, r.payload, r.descriptor);
    SizesDiffer(file, DataOffset(file, at), r.payload, size);
  }

  lemma SizesDiffer(file: bytes, d: nat, payload: bytes, size: int)
    requires d + |payload| < |file| && file[d..d + |payload|] == payload
    ensures (if size < 0 then file[d..] else file[d..Min(d + size, |file|)]) == payload <==> size == |payload|
  {
    if size < 0 {
      assert |file[d..]| > |payload|;
    } else if size < |payload| {
      assert |file[d..d + size]| != |payload|;
    } else if size > |payload| {
      assert |file[d..Min(d + size, |file|)]| > |payload|;
    }
  }

  lemma HeaderAt(file: bytes, at: nat, h: LocalHeader, payload: bytes, descriptor: bytes)
    requires LocalFits(h)
    requires var s := EncodeLocal(h) + payload + descriptor; at + |s| <= |file| && file[at..at + |s|] == s
    ensures SignatureAt(file, at, LOCAL_SIGNATURE) && DataOffset(file, at) == at + 30 + |h.name| + |h.extra|
  {
    var tail := h.name + h.extra + payload + descriptor;
    var s := LocalFixed(h) + tail;
    assert EncodeLocal(h) + payload + descriptor == s;
    LocalFields(h, tail);
    SubSlices(file, at, s);
    SignatureBytes(file, at, LOCAL_SIGNATURE);
    ReadWritten2(h.nameLen);
    ReadWritten2(h.extraLen);
  }

  lemma SubSlices(file: bytes, at: nat, s: bytes)
    requires at + |s| <= |file| && file[at..at + |s|] == s && |s| >= 30
    ensures file[at..at + 4] == s[0..4] && file[at + 26..at + 28] == s[26..28] && file[at + 28..at + 30] == s[28..30]
  {
    SubSlice(file, at, at + |s|, 0, 4);
    SubSlice(file, at, at + |s|, 26, 28);
    SubSlice(file, at, at + |s|, 28, 30);
  }

  lemma DataAt(file: bytes, at: nat, s: bytes, h: LocalHeader, payload: bytes, descriptor: bytes)
    requires at + |s| <= |file| && file[at..at + |s|] == s && s == EncodeLocal(h) + payload + descriptor
    ensures var d := at + 30 + |h.name| + |h.extra|; d + |payload| <= |file| && file[d..d + |payload|] == payload
  {
    var k := 30 + |h.name| + |h.extra|;
    Middle(EncodeLocal(h), payload, descriptor);
    SubSlice(file, at, at + |s|, k, k + |payload|);
  }

  /** More bytes follow the data of every entry. */
  lemma RecordEndsBefore(log: seq<Record>, i: nat, post: bytes)
    requires i < |log| && |post| > 0
    ensures Place(log, i) + |RecordBytes(log[i])| < |Local(log) + post|
  {
    RecordAt(log, i, []);
    assert Local(log) + [] == Local(log);
  }

  // ---------------------------------------------------------------- what an entry reads back as

  predicate Unsaturated(e: Shared) {
    e.usize != MAX_UINT32 && e.csize != MAX_UINT32 && e.offset != MAX_UINT32
  }

  /** Without a saturated field no extra field changes the sizes or the offset. */
  lemma {:induction false} ScanUnsaturated(x: bytes, c: Conf, e: Shared)
    requires Unsaturated(e)
    ensures HasValues(ScanFrom(x, c, e), c.usize, c.csize, c.offset)
    decreases |x|
  {
    if HasBlock(x) {
      ScanUnsaturated(x[BlockLen(x)..], BlockEffect(c, TagOf(x), x[4..BlockLen(x)], e), e);
    }
  }

  predicate WithinLimits(s: Snap) {
    0 <= s.usize <= MAX_UINT32 && 0 <= s.csize <= MAX_UINT32 && 0 <= s.offset <= MAX_UINT32
  }

  /** The sizes and the offset of an entry within 32-bit limits are read back from its central header;
      a value of exactly 0xFFFFFFFF needs an extra field without a Zip64 block. */
  lemma SizesReadBack(s: Snap, x: bytes, decode: bytes -> bytes)
    requires WithinLimits(s) && (NoZip64(x) || (s.usize < MAX_UINT32 && s.csize < MAX_UINT32 && s.offset < MAX_UINT32))
    ensures HasValues(FileOf(CentralOf(s, x), decode).conf, s.usize, s.csize, s.offset)
  {
    ClampIs(s.usize);
    ClampIs(s.csize);
    ClampIs(s.offset);
    SizesKept(SharedOfCentral(CentralOf(s, x)));
  }

  lemma ClampIs(v: int)
    requires 0 <= v
    ensures Clamp(v) == Min(MAX_UINT32, v)
  {
  }

  lemma SizesKept(e: Shared)
    requires NoZip64(e.extra) || Unsaturated(e)
    ensures HasValues(ConfOf(e), e.usize, e.csize, e.offset)
  {
    if NoZip64(e.extra) {
      ScanKeepsSizes(e.extra, InitialConf(e), e);
    } else {
      ScanUnsaturated(e.extra, InitialConf(e), e);
    }
  }

  /** Beyond the limits the Zip64 block comes first, and the entry reads back exactly when at least
      four bytes of other blocks follow it and no value of exactly 0xFFFFFFFF precedes a stored one. */
  lemma LargeSizesReadBackIff(s: Snap, rest: bytes, decode: bytes -> bytes)
    requires NeedsZip64(s) && Int64s(s.usize, s.csize, s.offset)
    requires |rest| >= 4 ==> NoZip64(rest[4..])
    ensures HasValues(FileOf(CentralOf(s, EncodeZip64(s.usize, s.csize, s.offset) + rest), decode).conf, s.usize,
                      s.csize, s.offset)
       <==> |rest| >= 4 && Unshifted(s.usize, s.csize, s.offset)
  {
    var x := EncodeZip64(s.usize, s.csize, s.offset) + rest;
    var e := SharedOfCentral(CentralOf(s, x));
    ClampIs(s.usize);
    ClampIs(s.csize);
    ClampIs(s.offset);
    Zip64ReadBackIff(s.usize, s.csize, s.offset, rest, e);
  }

  /** That block comes first exactly if the extra field has no block with tag zero, the only smaller one. */
  lemma Zip64FirstIff(s: Snap, x: bytes)
    requires NeedsZip64(s) && s.extra.Some? && CentralExtra(s, x) && AllBlocksOk(s.extra.value)
    ensures EncodeZip64(s.usize, s.csize, s.offset) <= x <==> 0 !in s.extra.value
  {
    var m := WithBlocks(s, s.extra.value);
    var ks: seq<u16> :| Ascending(ks) && (forall k :: k in ks <==> k in m) && x == Concat(ks, m);
    ZeroAndZip64(s);
    Zip64Begins(s.usize, s.csize, s.offset);
    FirstUnlessZero(ks, m, EncodeZip64(s.usize, s.csize, s.offset));
  }

  lemma ZeroAndZip64(s: Snap)
    requires NeedsZip64(s) && s.extra.Some?
    ensures var m := WithBlocks(s, s.extra.value);
            && ZIP64_TAG in m && m[ZIP64_TAG] == EncodeZip64(s.usize, s.csize, s.offset)
            && (0 in m <==> 0 in s.extra.value) && (0 in m ==> m[0] == s.extra.value[0])
  {
  }

  lemma Zip64Begins(u: int, c: int, o: int)
    ensures var b := EncodeZip64(u, c, o); |b| >= 2 && b[0..2] == LE(2, ZIP64_TAG)
  {
  }

  lemma FirstUnlessZero(ks: seq<u16>, m: ExtraMap, b: bytes)
    requires Ascending(ks) && (forall k :: k in ks <==> k in m) && (0 in m ==> BlockOk(0, m[0]))
    requires ZIP64_TAG in m && b == m[ZIP64_TAG] && |b| >= 2 && b[0..2] == LE(2, ZIP64_TAG)
    ensures b <= Concat(ks, m) <==> 0 !in m
  {
    if 0 in m {
      ZeroFirst(ks, m, b);
    } else {
      LeastFirst(ks, m);
    }
  }

  lemma ZeroFirst(ks: seq<u16>, m: ExtraMap, b: bytes)
    requires Ascending(ks) && (forall k :: k in ks <==> k in m) && 0 in m && BlockOk(0, m[0])
    requires |b| >= 2 && b[0..2] == LE(2, ZIP64_TAG)
    ensures !(b <= Concat(ks, m))
  {
    assert 0 in ks && ks[0] in m;
    assert ks[0] == 0;
    var x := m[0] + Concat(ks[1..], m);
    assert x[0..2] == m[0][0..2];
    ReadWritten2(ZIP64_TAG);
  }

  lemma LeastFirst(ks: seq<u16>, m: ExtraMap)
    requires Ascending(ks) && (forall k :: k in ks <==> k in m) && ZIP64_TAG in m && 0 !in m
    ensures m[ZIP64_TAG] <= Concat(ks, m)
  {
    assert ZIP64_TAG in ks && ks[0] in m;
    assert ks[0] == ZIP64_TAG;
    StartsWith(m[ks[0]], Concat(ks[1..], m));
  }

  lemma StartsWith(a: bytes, b: bytes)
    ensures a <= a + b
  {
  }

  /** The name, whether it is a directory, the CRC and the comment of any entry; the name of a file
      must not end in a slash, or it is taken for a directory. */
  lemma NameReadsBackIff(s: Snap, x: bytes, decode: bytes -> bytes)
    ensures var f := FileOf(CentralOf(s, x), decode);
            && f.crc == s.crc && f.comment == s.config.comment && f.extraRaw == x
            && (f.name == s.name && f.isDir == s.isDir <==> s.isDir || !EndsInSlash(s.name))
  {
    FlagBits(s);
    if s.isDir {
      assert (s.name + [SLASH])[..|s.name|] == s.name;
    }
  }

  /** The method in the last AES block that the walk over `x` meets; `seen` was met before. */
  function LastAes(x: bytes, seen: Option<u16>): Option<u16>
    decreases |x|
  {
    if !HasBlock(x) then seen
    else LastAes(x[BlockLen(x)..], if TagOf(x) == AES_TAG && BlockLen(x) >= 11 then Some(U16(x[9..11])) else seen)
  }

  /** Whatever the extra field holds, method and encryption come from the last AES block met, and from
      the header if there is none. */
  lemma {:induction false} ScanMethod(x: bytes, seen: Option<u16>, c: Conf, e: Shared)
    requires seen.Some? ==> c.scheme == seen.value && c.encryption == Aes256
    ensures var (r, last) := (ScanFrom(x, c, e), LastAes(x, seen));
            && (last.Some? ==> r.scheme == last.value && r.encryption == Aes256)
            && (last.None? ==> r.scheme == c.scheme && r.encryption == c.encryption)
    decreases |x|
  {
    if HasBlock(x) {
      var now := if TagOf(x) == AES_TAG && BlockLen(x) >= 11 then Some(U16(x[9..11])) else seen;
      if BlockLen(x) >= 11 {
        SubSlice(x, 4, BlockLen(x), 5, 7);
      }
      ScanMethod(x[BlockLen(x)..], now, BlockEffect(c, TagOf(x), x[4..BlockLen(x)], e), e);
      LastAesSeen(x[BlockLen(x)..], now);
    }
  }

  lemma {:induction false} LastAesSeen(x: bytes, seen: Option<u16>)
    ensures seen.Some? ==> LastAes(x, seen).Some?
    decreases |x|
  {
    if HasBlock(x) {
      LastAesSeen(x[BlockLen(x)..], if TagOf(x) == AES_TAG && BlockLen(x) >= 11 then Some(U16(x[9..11])) else seen);
    }
  }

  /** The blocks of a map hold at most one AES block. */
  lemma {:induction false} LastAesOfMap(ks: seq<u16>, m: map<u16, bytes>, seen: Option<u16>)
    requires (forall k :: k in ks ==> k in m) && AllBlocksOk(m) && Ascending(ks)
    ensures LastAes(Concat(ks, m), seen) == if AES_TAG in ks && |m[AES_TAG]| >= 11 then Some(U16(m[AES_TAG][9..11]))
            else seen
  {
    if ks != [] {
      var k, b, rest := ks[0], m[ks[0]], Concat(ks[1..], m);
      FirstBlock(k, b, rest);
      if |b| >= 11 {
        assert (b + rest)[9..11] == b[9..11];
      }
      TailMembers(ks);
      LastAesOfMap(ks[1..], m, if k == AES_TAG && |b| >= 11 then Some(U16(b[9..11])) else seen);
    }
  }

  /** Behind a Zip64 block, which reaches four bytes too far, the walk is misaligned. */
  lemma LastAesBehindZip64(u: int, c: int, o: int, rest: bytes)
    ensures LastAes(EncodeZip64(u, c, o) + rest, None) == if |rest| < 4 then None else LastAes(rest[4..], None)
  {
    Zip64Front(u, c, o, rest);
  }

  lemma AesBlock(scheme: u16)
    ensures var b := EncodeAes(scheme); BlockOk(AES_TAG, b) && |b| == 11 && U16(b[9..11]) == scheme
  {
    var b := EncodeAes(scheme);
    assert b[0..2] == LE(2, AES_TAG) && b[2..4] == LE(2, 7) && b[9..11] == LE(2, scheme);
    ReadWritten2(AES_TAG);
    ReadWritten2(7);
    ReadWritten2(scheme);
  }

  lemma NtfsBlock(write: u64, access: u64, creation: u64)
    ensures BlockOk(NTFS_TAG, EncodeNtfs(write, access, creation))
  {
    var rest := LE(4, 0) + LE(2, 1) + LE(2, 24) + LE(8, write) + LE(8, access) + LE(8, creation);
    var b := LE(2, NTFS_TAG) + LE(2, 32) + rest;
    assert EncodeNtfs(write, access, creation) == b;
    assert b[0..2] == LE(2, NTFS_TAG) && b[2..4] == LE(2, 32);
    ReadWritten2(NTFS_TAG);
    ReadWritten2(32);
  }

  /** Whether the reader finds the method and the encryption with which the entry was written.  An AES
      block in the extra field is believed, whether the entry is encrypted that way or not; an empty
      entry is said to be stored; and an encryption flag is believed that an earlier reading has set. */
  predicate MethodShown(s: Snap, x: bytes) {
    if LastAes(x, None).Some? then s.config.encryption == Aes256 && LastAes(x, None).value == s.config.scheme
    else
      && s.config.encryption != Aes256 && (s.usize == 0 ==> s.config.scheme == STORE)
      && (Bit(s.flags, ENCRYPTED) ==> s.config.encryption == ZipCrypto)
  }

  lemma MethodReadsBackIff(s: Snap, x: bytes, decode: bytes -> bytes)
    ensures var c := FileOf(CentralOf(s, x), decode).conf;
            c.scheme == s.config.scheme && c.encryption == s.config.encryption <==> MethodShown(s, x)
  {
    var e := SharedOfCentral(CentralOf(s, x));
    ScanMethod(x, None, InitialConf(e), e);
    FlagBits(s);
    assert Bit(e.flags, ENCRYPTED) <==> e.flags % 2 == 1;
  }

  /** What that means before the entry is written.  With a parsed extra field of well-formed blocks and
      no Zip64 block, an AES-encrypted entry always reads back, and any other one exactly if the map
      holds no AES block from before.  With an unparsed one it is not AES-encrypted, and the raw bytes
      decide. */
  lemma WrittenMethodIff(s: Snap, x: bytes)
    requires CentralExtra(s, x) && (s.extra.Some? ==> AllBlocksOk(s.extra.value) && !NeedsZip64(s))
    ensures s.config.encryption == Aes256 ==> MethodShown(s, x)
    ensures s.config.encryption != Aes256 ==>
              (MethodShown(s, x) <==>
                && !LeftFromBefore(s) && (s.usize == 0 ==> s.config.scheme == STORE)
                && (Bit(s.flags, ENCRYPTED) ==> s.config.encryption == ZipCrypto))
  {
    if s.extra.Some? {
      var m := WithBlocks(s, s.extra.value);
      BlocksWritten(s);
      var ks: seq<u16> :| Ascending(ks) && (forall k :: k in ks <==> k in m) && x == Concat(ks, m);
      LastAesOfMap(ks, m, None);
      AesBlock(s.config.scheme);
    }
  }

  /** An AES block of an earlier encryption is in the extra field. */
  predicate LeftFromBefore(s: Snap) {
    match s.extra
    case None => LastAes(s.extraRaw, None).Some?
    case Some(m) => AES_TAG in m && |m[AES_TAG]| >= 11
  }

  lemma BlocksWritten(s: Snap)
    requires s.extra.Some? && AllBlocksOk(s.extra.value) && !NeedsZip64(s)
    ensures var (m, w) := (s.extra.value, WithBlocks(s, s.extra.value));
            && AllBlocksOk(w) && (AES_TAG in w <==> AES_TAG in m || s.config.encryption == Aes256)
            && (AES_TAG in w ==>
                w[AES_TAG] == if s.config.encryption == Aes256 then EncodeAes(s.config.scheme) else m[AES_TAG])
  {
    AesBlock(s.config.scheme);
    if s.times.Some? {
      NtfsBlock(s.times.value.0, s.times.value.1, s.times.value.2);
    }
  }

  /** Beyond the 32-bit limits the walk goes on four bytes behind the Zip64 block, and what it meets in
      the other blocks from there decides. */
  lemma LargeMethodIff(s: Snap, x: bytes)
    requires NeedsZip64(s) && s.extra.Some? && CentralExtra(s, x) && AllBlocksOk(s.extra.value) && 0 !in s.extra.value
    ensures var z := EncodeZip64(s.usize, s.csize, s.offset);
            && z <= x
            && var rest := x[|z|..];
               var last := if |rest| < 4 then None else LastAes(rest[4..], None);
               MethodShown(s, x) <==>
                 if last.Some? then s.config.encryption == Aes256 && last.value == s.config.scheme
                 else
                   && s.config.encryption != Aes256 && (s.usize == 0 ==> s.config.scheme == STORE)
                   && (Bit(s.flags, ENCRYPTED) ==> s.config.encryption == ZipCrypto)
  {
    var z := EncodeZip64(s.usize, s.csize, s.offset);
    Zip64FirstIff(s, x);
    assert x == z + x[|z|..];
    LastAesBehindZip64(s.usize, s.csize, s.offset, x[|z|..]);
  }

  /** With NTFS times in between, which take the place of the sizes (`Zip64ReadsTimestamps`), the walk is
      aligned again, and the AES block is seen. */
  lemma LargeAesBehindTimes(s: Snap, write: u64, access: u64, creation: u64)
    requires s.config.encryption == Aes256
    ensures MethodShown(s, EncodeZip64(s.usize, s.csize, s.offset) +
                        (EncodeNtfs(write, access, creation) + EncodeAes(s.config.scheme)))
  {
    var (n, b) := (EncodeNtfs(write, access, creation), EncodeAes(s.config.scheme));
    LastAesBehindZip64(s.usize, s.csize, s.offset, n + b);
    BehindTimes(write, access, creation, b);
    LoneAes(s.config.scheme);
  }

  lemma BehindTimes(write: u64, access: u64, creation: u64, b: bytes)
    ensures var s := EncodeNtfs(write, access, creation) + b;
            |s| >= 4 && LastAes(s[4..], None) == LastAes(b, None)
  {
    var n := EncodeNtfs(write, access, creation);
    NtfsMisaligned(write, access, creation);
    NtfsAttribute(n[8..], write, access, creation);
    assert (n + b)[4..] == n[4..] + b;
    EmptyThenAttribute(n[4..], n[8..], b);
  }

  lemma LoneAes(scheme: u16)
    ensures LastAes(EncodeAes(scheme), None) == Some(scheme)
  {
    var b := EncodeAes(scheme);
    AesBlock(scheme);
    FirstBlock(AES_TAG, b, []);
    assert b + [] == b;
  }

  lemma EmptyThenAttribute(t: bytes, v: bytes, b: bytes)
    requires HasBlock(t) && BlockLen(t) == 4 && TagOf(t) == 0 && t[4..] == v
    requires HasBlock(v) && TagOf(v) == ZIP64_TAG && BlockLen(v) == 28 && v[28..] == []
    ensures LastAes(t + b, None) == LastAes(b, None)
  {
    var (tb, vb) := (t + b, v + b);
    assert tb[0..2] == t[0..2] && tb[2..4] == t[2..4] && tb[4..] == vb;
    assert vb[0..2] == v[0..2] && vb[2..4] == v[2..4] && vb[28..] == b;
  }

  /** A large AES-encrypted entry without further blocks is not shown: the Zip64 block hides the AES
      block behind it. */
  lemma LargeAesNotShown(s: Snap, x: bytes)
    requires s.config.encryption == Aes256 && x == EncodeZip64(s.usize, s.csize, s.offset) + EncodeAes(s.config.scheme)
    ensures !MethodShown(s, x)
  {
    LastAesBehindZip64(s.usize, s.csize, s.offset, EncodeAes(s.config.scheme));
    AesMisaligned(s.config.scheme);
  }

  /** An entry loaded with an AES block in its unparsed extra field, whose encryption was then switched
      off: it is written as plain stored data, and read back as AES-encrypted and deflated. */
  lemma EncryptionComesBack(s: Snap, decode: bytes -> bytes)
    requires s.extra == None && s.extraRaw == EncodeAes(DEFLATE) && s.times.None? && !NeedsZip64(s)
    requires s.config.scheme == STORE && s.config.encryption == NotEncrypted
    ensures CentralExtra(s, EncodeAes(DEFLATE)) && StoredScheme(s) == STORE
    ensures var c := FileOf(CentralOf(s, EncodeAes(DEFLATE)), decode).conf;
            c.encryption == Aes256 && c.scheme == DEFLATE
  {
    var (b, e) := (EncodeAes(DEFLATE), SharedOfCentral(CentralOf(s, EncodeAes(DEFLATE))));
    AesBlock(DEFLATE);
    FirstBlock(AES_TAG, b, []);
    assert b + [] == b;
    ScanMethod(b, None, InitialConf(e), e);
  }

  // ---------------------------------------------------------------- loading a whole archive

  /** The last end record of a file. */
  ghost function LastCandidate(file: bytes): (r: Option<nat>)
    ensures r.Some? ==> Candidate(file, r.value) && NoCandidateFrom(file, r.value + 1)
    ensures r.None? ==> NoCandidateFrom(file, 0)
  {
    LastCandidateBelow(file, |file|)
  }

  ghost function LastCandidateBelow(file: bytes, n: nat): (r: Option<nat>)
    requires NoCandidateFrom(file, n)
    ensures r.Some? ==> Candidate(file, r.value) && NoCandidateFrom(file, r.value + 1)
    ensures r.None? ==> NoCandidateFrom(file, 0)
  {
    if n == 0 then None
    else if Candidate(file, n - 1) then Some(n - 1)
    else
      LastCandidateBelow(file, n - 1)
  }

  /** What the end records and the directory of a file say. */
  function ListingAt(file: bytes, e: Eocd): Option<seq<CentralHeader>> {
    var d := DirectoryOf(file, e);
    if d.None? then None else ReadN(ReadEntry, From(file, d.value.0), d.value.1)
  }

  ghost function Listing(file: bytes): Option<seq<CentralHeader>> {
    var at := LastCandidate(file);
    if at.None? then None
    else
      var e := ReadEocd(file[at.value + 4..]);
      if e.None? then None else ListingAt(file, e.value)
  }

  /** `FindAndReadEOCD` followed by `ReadFiles`. */
  method Load(file: bytes) returns (r: Option<seq<CentralHeader>>)
    ensures r == Listing(file)
  {
    var eocd;
    ghost var at;
    eocd, at := FindEocd(file);
    SameCandidate(file, at);
    if eocd.None? {
      return None;
    }
    var d := DirectoryOf(file, eocd.value);
    if d.None? {
      return None;
    }
    r := ReadCentralDir(file, d.value.0, d.value.1);
  }

  lemma SameCandidate(file: bytes, at: nat)
    ensures Candidate(file, at) && NoCandidateFrom(file, at + 1) ==> LastCandidate(file) == Some(at)
    ensures NoCandidateFrom(file, 0) ==> LastCandidate(file) == None
  {
  }

  /** No locator stands by accident where the reader would look for one. */
  predicate NoStrayLocator(file: bytes, comment: bytes) {
    var at := LocatorAt(file, |Clipped(comment)|);
    at >= 0 ==> !SignatureAt(file, at, LOCATOR_SIGNATURE)
  }

  /** Writing and then loading: the archive of any list of records reads back as exactly the headers
      that were written, in order, if and only if its end records are readable.  Otherwise loading
      fails. */
  lemma WriteThenLoad(log: seq<Record>, tail: bytes, comment: bytes)
    requires forall r :: r in log ==> CentralFits(r.central)
    requires In63(|log|) && In63(|Local(log) + tail| + |Central(log)|)
             && NoFakedEnd(ArchiveBytes(log, tail, comment), comment)
    ensures var readable := EndReadable(|log|, |Central(log)|, |Local(log) + tail|, comment);
            && (readable ==> Listing(ArchiveBytes(log, tail, comment)) == Some(Centrals(log)))
            && (!readable && NoStrayLocator(ArchiveBytes(log, tail, comment), comment) ==>
                  Listing(ArchiveBytes(log, tail, comment)) == None)
  {
    var (body, cd) := (Local(log) + tail, Central(log));
    DirectoryRoundTrip(log, EndBytes(|log|, |cd|, |body|, comment));
    LoadedBack(body, cd, |log|, Centrals(log), comment);
  }

  lemma LoadedBack(body: bytes, cd: bytes, n: nat, headers: seq<CentralHeader>, comment: bytes)
    requires In63(n) && In63(|body| + |cd|) && NoFakedEnd(body + cd + EndBytes(n, |cd|, |body|, comment), comment)
    requires ReadN(ReadEntry, cd + EndBytes(n, |cd|, |body|, comment), n) == Some(headers)
    ensures var (file, readable) := (body + cd + EndBytes(n, |cd|, |body|, comment),
                                     EndReadable(n, |cd|, |body|, comment));
            && (readable ==> Listing(file) == Some(headers))
            && (!readable && NoStrayLocator(file, comment) ==> Listing(file) == None)
  {
    var end := EndBytes(n, |cd|, |body|, comment);
    EndRoundTrip(body, cd, n, comment);
    LastRecordFound(body + cd, n, |cd|, |body|, comment);
    if EndReadable(n, |cd|, |body|, comment) {
      ListingReads(body + cd + end, body, cd, end, TrueEocd(n, |cd|, |body|, comment), n, headers);
    }
  }

  /** No end record is faked inside the archive comment. */
  ghost predicate NoFakedEnd(file: bytes, comment: bytes) {
    NoCandidateFrom(file, |file| - EOCD_SIZE - |Clipped(comment)| + 1)
  }

  lemma ListingReads(file: bytes, body: bytes, cd: bytes, end: bytes, e: Eocd, n: u64, headers: seq<CentralHeader>)
    requires file == body + cd + end && In63(|body|) && DirectoryOf(file, e) == Some((|body|, n))
    requires ReadN(ReadEntry, cd + end, n) == Some(headers)
    ensures ListingAt(file, e) == Some(headers)
  {
    Associate(body, cd, end);
    assert From(body + (cd + end), |body|) == cd + end;
  }

  lemma LastRecordFound(pre: bytes, entries: nat, size: nat, offset: nat, comment: bytes)
    requires var file := pre + EndBytes(entries, size, offset, comment);
             NoCandidateFrom(file, |file| - EOCD_SIZE - |Clipped(comment)| + 1)
    ensures var file := pre + EndBytes(entries, size, offset, comment);
            && LastCandidate(file).Some?
            && ReadEocd(file[LastCandidate(file).value + 4..]) == Some(TrueEocd(entries, size, offset, comment))
  {
    var zip64 := if ArchiveRequiresZip64(entries, size, offset)
                 then EncodeZip64Eocd(entries, size, offset) + EncodeLocator(offset + size) else [];
    var eocd := EncodeEocd(entries, size, offset, comment);
    var file := pre + EndBytes(entries, size, offset, comment);
    assert file == (pre + zip64) + eocd;
    WrittenEocdReads(pre + zip64, entries, size, offset, comment);
    SameCandidate(file, |pre + zip64|);
  }

  // ---------------------------------------------------------------- from files to files

  /** The limits of a record that reads back: 16-bit lengths, 32-bit values, and a name that shows
      whether it is a directory. */
  predicate Portable(r: Record) {
    && |EntryName(r.snap)| <= MAX_STRING_LENGTH && |r.snap.config.comment| <= MAX_STRING_LENGTH
    && |r.central.extra| <= MAX_STRING_LENGTH && |r.local.extra| <= MAX_STRING_LENGTH
    && WithinLimits(r.snap)
    && (NoZip64(r.central.extra)
        || (r.snap.usize < MAX_UINT32 && r.snap.csize < MAX_UINT32 && r.snap.offset < MAX_UINT32))
    && (r.snap.isDir || !EndsInSlash(r.snap.name))
  }

  lemma PortableFits(r: Record, at: nat)
    requires RecordOk(r, at) && Portable(r)
    ensures CentralFits(r.central) && LocalFits(r.local)
  {
    CentralOfFits(r.snap, r.central.extra);
    SmallU16(|r.local.name|);
    SmallU16(|r.local.extra|);
  }

  lemma CentralOfFits(s: Snap, x: bytes)
    requires |EntryName(s)| <= MAX_STRING_LENGTH && |s.config.comment| <= MAX_STRING_LENGTH && |x| <= MAX_STRING_LENGTH
    ensures CentralFits(CentralOf(s, x))
  {
    SmallU16(|EntryName(s)|);
    SmallU16(|s.config.comment|);
    SmallU16(|x|);
  }

  lemma {:induction false} AllFit(log: seq<Record>)
    requires LogOk(log) && forall r :: r in log ==> Portable(r)
    ensures forall r :: r in log ==> CentralFits(r.central) && LocalFits(r.local)
  {
    forall r | r in log
      ensures CentralFits(r.central) && LocalFits(r.local)
    {
      var i :| 0 <= i < |log| && log[i] == r;
      LogAt(log, i);
      PortableFits(r, |Local(log[..i])|);
    }
  }

  /** What the loaded entry `f` of the written file `w` says, and the data found for it. */
  ghost predicate Recovered(w: File, pipe: Pipeline, r: Record, archive: bytes, f: Loaded) {
    && f.name == w.snap.name && f.isDir == w.snap.isDir && f.comment == w.snap.config.comment && f.crc == r.snap.crc
    && HasValues(f.conf, r.snap.usize, r.snap.csize, r.snap.offset) && r.snap.config == Prepared(w).config
    && (f.conf.scheme == Prepared(w).config.scheme && f.conf.encryption == Prepared(w).config.encryption
        <==> MethodShown(r.snap, r.central.extra))
    && (!w.snap.isDir ==> RawData(archive, f.conf.offset, f.conf.csize) == Some(r.payload))
    && (!w.snap.isDir && w.source.Raw? ==> r.payload == w.source.stored)
    && (!w.snap.isDir && w.source.Content? ==>
          f.conf.usize == |w.source.data|
            && pipe.encode(r.snap.config, w.source.data, w.source.draw) == Output(r.payload, true))
  }

  /** Every archive of a sequential run within the limits, loaded again, lists the files that did not
      fail in the same order, and under each listed offset and size stand exactly the bytes written for
      that file. */
  lemma RoundTrip(files: seq<File>, isSeeker: bool, pipe: Pipeline, log: seq<Record>, tail: bytes, comment: bytes,
                  decode: bytes -> bytes)
    requires LogOk(log) && LogFor(files, isSeeker, pipe, log)
    requires (forall f :: f in files ==> CountsRight(f, isSeeker)) && forall r :: r in log ==> Portable(r)
    requires In63(|log|) && In63(|Local(log) + tail| + |Central(log)|)
    requires EndReadable(|log|, |Central(log)|, |Local(log) + tail|, comment)
             && NoFakedEnd(ArchiveBytes(log, tail, comment), comment)
    ensures Listing(ArchiveBytes(log, tail, comment)) == Some(Centrals(log)) && |Centrals(log)| == |files|
    ensures forall i :: 0 <= i < |files| ==>
              Recovered(files[i], pipe, log[i], ArchiveBytes(log, tail, comment), FileOf(Centrals(log)[i], decode))
  {
    AllFit(log);
    WriteThenLoad(log, tail, comment);
    forall i | 0 <= i < |files|
      ensures Recovered(files[i], pipe, log[i], ArchiveBytes(log, tail, comment), FileOf(Centrals(log)[i], decode))
    {
      assert files[i] in files && log[i] in log;
      MapAt(CentralOfRecord, log, i);
      BehindLocal(log, tail, comment);
      EntryRecovered(files[i], isSeeker, pipe, log, i, tail + Central(log) + EndBytesOf(log, tail, comment), decode);
    }
  }

  lemma BehindLocal(log: seq<Record>, tail: bytes, comment: bytes)
    ensures var post := tail + Central(log) + EndBytesOf(log, tail, comment);
            ArchiveBytes(log, tail, comment) == Local(log) + post && |post| > 0
  {
    AssociateThree(Local(log), tail, Central(log), EndBytesOf(log, tail, comment));
  }

  lemma EntryRecovered(w: File, isSeeker: bool, pipe: Pipeline, log: seq<Record>, i: nat, post: bytes,
                       decode: bytes -> bytes)
    requires LogOk(log) && i < |log| && Written(w, isSeeker, pipe, log[i]) && CountsRight(w, isSeeker)
    requires Portable(log[i]) && |post| > 0
    ensures Recovered(w, pipe, log[i], Local(log) + post, FileOf(log[i].central, decode))
  {
    var r := log[i];
    LogAt(log, i);
    PortableFits(r, |Local(log[..i])|);
    WrittenOk(w, isSeeker, pipe, r.snap, r.local, r.payload, r.descriptor);
    RawDataIff(log, i, post, |r.payload|);
    KeptFields(w, isSeeker, pipe, r);
    NameReadsBackIff(r.snap, r.central.extra, decode);
    SizesReadBack(r.snap, r.central.extra, decode);
    MethodReadsBackIff(r.snap, r.central.extra, decode);
  }

  lemma KeptFields(w: File, isSeeker: bool, pipe: Pipeline, r: Record)
    requires Written(w, isSeeker, pipe, r)
    ensures r.snap.name == w.snap.name && r.snap.isDir == w.snap.isDir && r.snap.config == Prepared(w).config
    ensures !w.snap.isDir && w.source.Raw? ==> r.payload == w.source.stored
    ensures !w.snap.isDir && w.source.Content? ==>
              r.snap.usize == |w.source.data|
                && pipe.encode(r.snap.config, w.source.data, w.source.draw) == Output(r.payload, true)
  {
    var p := Prepared(w).(offset := r.snap.offset);
    EncodeMeaning(if Streams(w, isSeeker) then StreamSnap(p, isSeeker) else p, w.source, pipe);
  }

  /** What `HandleResult` records for a file that `CompressFile` has compressed. */
  predicate WrittenInParallel(w: File, pipe: Pipeline, r: Record) {
    var e := CompressFile(w, pipe);
    && e.err.None? && r.snap == e.snap.(offset := r.snap.offset) && r.local == LocalOf(r.snap)
    && r.payload == (if e.snap.usize == 0 then [] else e.out) && r.junk == [] && r.descriptor == []
  }

  /** What the loaded entry `f` of a file written by the parallel path says, and the data found for it:
      that is exactly the data written if and only if the recorded size was right. */
  ghost predicate RecoveredInParallel(w: File, pipe: Pipeline, r: Record, archive: bytes, f: Loaded) {
    && f.name == w.snap.name && f.isDir == w.snap.isDir && f.comment == w.snap.config.comment && f.crc == r.snap.crc
    && HasValues(f.conf, r.snap.usize, r.snap.csize, r.snap.offset) && r.snap.config == Prepared(w).config
    && (f.conf.scheme == Prepared(w).config.scheme && f.conf.encryption == Prepared(w).config.encryption
        <==> MethodShown(r.snap, r.central.extra))
    && (RawData(archive, f.conf.offset, f.conf.csize) == Some(r.payload) <==> ParallelCountsRight(w, pipe))
    && (!w.snap.isDir && w.snap.usize != 0 && w.source.Content? ==>
          f.conf.usize == |w.source.data|
            && pipe.encode(r.snap.config, w.source.data, w.source.draw) == Output(CompressFile(w, pipe).out, true))
  }

  lemma ParallelEntryRecovered(w: File, pipe: Pipeline, log: seq<Record>, i: nat, post: bytes, decode: bytes -> bytes)
    requires LogOk(log) && i < |log| && WrittenInParallel(w, pipe, log[i]) && Portable(log[i]) && |post| > 0
    ensures RecoveredInParallel(w, pipe, log[i], Local(log) + post, FileOf(log[i].central, decode))
  {
    var r := log[i];
    LogAt(log, i);
    PortableFits(r, |Local(log[..i])|);
    RawDataIff(log, i, post, r.snap.csize);
    ParallelSizeIff(w, pipe);
    KeptInParallel(w, pipe, r);
    NameReadsBackIff(r.snap, r.central.extra, decode);
    SizesReadBack(r.snap, r.central.extra, decode);
    MethodReadsBackIff(r.snap, r.central.extra, decode);
  }

  lemma KeptInParallel(w: File, pipe: Pipeline, r: Record)
    requires WrittenInParallel(w, pipe, r)
    ensures r.snap.name == w.snap.name && r.snap.isDir == w.snap.isDir && r.snap.config == Prepared(w).config
    ensures !w.snap.isDir && w.snap.usize != 0 && w.source.Content? ==>
              r.snap.usize == |w.source.data|
                && pipe.encode(r.snap.config, w.source.data, w.source.draw) == Output(CompressFile(w, pipe).out, true)
  {
    EncodeMeaning(Prepared(w), w.source, pipe);
  }

  // ---------------------------------------------------------------- files of declared size zero

  /** Both headers say that the entry is stored and not encrypted, but for a flag from before. */
  ghost predicate SaysStored(r: Record, flags: u16) {
    && r.snap.config.scheme == STORE && r.snap.config.encryption == NotEncrypted
    && r.local.scheme == 0 && r.central.scheme == 0
    && (Bit(r.local.flags, ENCRYPTED) <==> Bit(flags, ENCRYPTED))
    && (Bit(r.central.flags, ENCRYPTED) <==> Bit(flags, ENCRYPTED))
  }

  /** A file of declared size zero is written without compression and encryption, whatever its options
      are; content is passed to the pipeline with the options of a stored file.  It is also shown like
      that, unless a flag or an AES block from before says otherwise. */
  lemma EmptyIsStored(f: File, isSeeker: bool, pipe: Pipeline, r: Record, at: nat)
    requires f.snap.usize == 0 && Written(f, isSeeker, pipe, r) && RecordOk(r, at)
    ensures SaysStored(r, f.snap.flags)
    ensures !f.snap.isDir && f.source.Content? ==>
              pipe.encode(Config(STORE, 0, NotEncrypted, f.snap.config.comment), f.source.data, f.source.draw)
                == Output(r.payload, true)
    ensures MethodShown(r.snap, r.central.extra) <==>
              LastAes(r.central.extra, None).None? && !Bit(f.snap.flags, ENCRYPTED)
  {
    var p := Prepared(f).(offset := r.snap.offset);
    var t := if f.snap.isDir || !Streams(f, isSeeker) then p else StreamSnap(p, isSeeker);
    EncodeMeaning(t, f.source, pipe);
    SetBitExactly(f.snap.flags, DESCRIPTOR, ENCRYPTED);
    FlagBits(t);
    FlagBits(r.snap);
  }

  /** The same for the parallel path, where such a file has no data at all. */
  lemma EmptyInParallel(f: File, pipe: Pipeline, r: Record, at: nat)
    requires f.snap.usize == 0 && WrittenInParallel(f, pipe, r) && RecordOk(r, at)
    ensures SaysStored(r, f.snap.flags) && r.payload == []
    ensures MethodShown(r.snap, r.central.extra) <==>
              LastAes(r.central.extra, None).None? && !Bit(f.snap.flags, ENCRYPTED)
  {
    FlagBits(r.snap);
  }

  // ---------------------------------------------------------------- writing and loading in one go

  /** A file that was written when the position was right all the time was counted right. */
  lemma {:induction false} SteadyCounts(files: seq<File>, implicitToo: bool, isSeeker: bool, pipe: Pipeline)
    requires Steady(files, isSeeker, pipe)
    ensures forall f :: f in Successful(files, implicitToo, isSeeker, pipe) ==> CountsRight(f, isSeeker)
  {
    if files != [] {
      SteadyCounts(files[..|files| - 1], implicitToo, isSeeker, pipe);
      SteadyBefore(files, isSeeker, pipe);
      LastSuccessful(files, implicitToo, isSeeker, pipe);
    }
  }

  lemma LastSuccessful(files: seq<File>, implicitToo: bool, isSeeker: bool, pipe: Pipeline)
    requires files != [] && Uncounted(files[|files| - 1], isSeeker, pipe) == 0
    ensures forall f :: f in Successful(files, implicitToo, isSeeker, pipe) ==>
              f in Successful(files[..|files| - 1], implicitToo, isSeeker, pipe) || CountsRight(f, isSeeker)
  {
    var f := files[|files| - 1];
    if Failure(f, isSeeker, pipe).None? {
      NotCountedWrong(f, isSeeker, pipe);
    }
  }

  lemma SteadyBefore(files: seq<File>, isSeeker: bool, pipe: Pipeline)
    requires files != [] && Steady(files, isSeeker, pipe)
    ensures Uncounted(files[|files| - 1], isSeeker, pipe) == 0
  {
    var init := files[..|files| - 1];
    assert Lag(init, isSeeker, pipe) == 0;
  }

  lemma NotCountedWrong(f: File, isSeeker: bool, pipe: Pipeline)
    requires Failure(f, isSeeker, pipe).None?
    ensures Uncounted(f, isSeeker, pipe) == 0 ==> CountsRight(f, isSeeker)
  {
    var e := EntryOf(f, 0, isSeeker, pipe);
    OffsetIrrelevant(f, 0, isSeeker, pipe);
    WrittenOk(f, isSeeker, pipe, e.encoding.snap, e.local, e.encoding.out, e.descriptor);
  }

  /** The limits of an archive that reads back as it was meant, if its end records do. */
  ghost predicate Storable(log: seq<Record>, tail: bytes, comment: bytes) {
    && (forall r :: r in log ==> Portable(r))
    && In63(|log|) && In63(|Local(log) + tail| + |Central(log)|)
    && NoFakedEnd(ArchiveBytes(log, tail, comment), comment)
  }

  /** A sequential run and loading what it has written.  When the position was right behind every file,
      the listing is that of the files that did not fail, in order, each with its data, if and only if
      the end records are readable. */
  method WriteAndLoad(zw: ZipWriter, files: seq<File>, ghost decode: bytes -> bytes)
    returns (errs: seq<Error>, panicked: bool, listing: Option<seq<CentralHeader>>)
    requires zw.Valid() && zw.log == [] && zw.tail == []
    requires forall f :: f in files ==> FileOk(f) && Tractable(f, zw.isSeeker)
    modifies zw`dest, zw`headerOffset, zw`encodeBuf, zw`centralDir, zw`centralDirSize, zw`entriesNum, zw`log, zw`tail
    modifies zw.encodeBuf
    ensures !panicked ==> errs == Failures(files, zw.isSeeker, zw.pipe)
    ensures !panicked && Steady(files, zw.isSeeker, zw.pipe) && Storable(zw.log, zw.tail, zw.comment) ==>
              LoadedAs(Successful(files, zw.includeImplicitDirs, zw.isSeeker, zw.pipe), zw.pipe, zw.log, zw.tail,
                       zw.comment, listing, decode)
  {
    ghost var body;
    errs, panicked, body := zw.WriteArchive(files);
    if panicked {
      return errs, panicked, None;
    }
    listing := Load(zw.dest);
    WrittenLoads(files, zw.includeImplicitDirs, zw.isSeeker, zw.pipe, zw.log, zw.tail, zw.comment, decode);
  }

  /** What loading the archive of the given files gives. */
  ghost predicate LoadedAs(files: seq<File>, pipe: Pipeline, log: seq<Record>, tail: bytes, comment: bytes,
                           listing: Option<seq<CentralHeader>>, decode: bytes -> bytes)
  {
    var archive := ArchiveBytes(log, tail, comment);
    if EndReadable(|log|, |Central(log)|, |Local(log) + tail|, comment) then
      && listing.Some? && |listing.value| == |files| == |log|
      && forall i :: 0 <= i < |files| ==> Recovered(files[i], pipe, log[i], archive, FileOf(listing.value[i], decode))
    else NoStrayLocator(archive, comment) ==> listing == None
  }

  lemma WrittenLoads(files: seq<File>, implicitToo: bool, isSeeker: bool, pipe: Pipeline, log: seq<Record>, tail: bytes,
                     comment: bytes, decode: bytes -> bytes)
    ensures Steady(files, isSeeker, pipe) && LogOk(log) && Storable(log, tail, comment)
            && LogFor(Successful(files, implicitToo, isSeeker, pipe), isSeeker, pipe, log) ==>
              LoadedAs(Successful(files, implicitToo, isSeeker, pipe), pipe, log, tail, comment,
                       Listing(ArchiveBytes(log, tail, comment)), decode)
  {
    if Steady(files, isSeeker, pipe) && LogOk(log) && Storable(log, tail, comment)
       && LogFor(Successful(files, implicitToo, isSeeker, pipe), isSeeker, pipe, log) {
      SteadyCounts(files, implicitToo, isSeeker, pipe);
      if EndReadable(|log|, |Central(log)|, |Local(log) + tail|, comment) {
        RoundTrip(Successful(files, implicitToo, isSeeker, pipe), isSeeker, pipe, log, tail, comment, decode);
      } else {
        AllFit(log);
        WriteThenLoad(log, tail, comment);
      }
    }
  }
}
