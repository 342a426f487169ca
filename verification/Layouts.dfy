/** The records of an archive byte for byte, with the numbers of APPNOTE 6.3 written out. */
module Layouts {
  import opened Wrappers
  import opened Bytes
  import opened ExtraField
  import opened EndRecords
  import opened Snapshot
  import H = Headers
  import W = Writer

  lemma TwoBytes(v: nat, a: byte, b: byte)
    requires v == a + 256 * b
    ensures LE(2, v) == [a, b]
  {
    LEStep(2, v);
    SmallByte(b);
    assert v % 256 == a && v / 256 == b;
  }

  lemma SmallByte(b: byte)
    ensures LE(1, b) == [b]
  {
    LEStep(1, b);
  }

  lemma FourBytes(v: nat, a: byte, b: byte, c: byte, d: byte)
    requires v == a + 256 * b + 0x1_0000 * c + 0x100_0000 * d
    ensures LE(4, v) == [a, b, c, d]
  {
    var w := b + 256 * c + 0x1_0000 * d;
    assert v % 256 == a && v / 256 == w;
    assert w % 256 == b && w / 256 == c + 256 * d;
    LEStep(4, v);
    LEStep(3, w);
    TwoBytes(c + 256 * d, c, d);
  }

  /** All signatures begin with the letters PK. */
  lemma Signatures()
    ensures LE(4, H.LOCAL_SIGNATURE) == [0x50, 0x4B, 3, 4] && LE(4, H.CENTRAL_SIGNATURE) == [0x50, 0x4B, 1, 2]
    ensures LE(4, W.DESCRIPTOR_SIGNATURE) == [0x50, 0x4B, 7, 8]
    ensures LE(4, EOCD_SIGNATURE) == [0x50, 0x4B, 5, 6] && LE(4, ZIP64_EOCD_SIGNATURE) == [0x50, 0x4B, 6, 6]
    ensures LE(4, LOCATOR_SIGNATURE) == [0x50, 0x4B, 6, 7]
  {
    FourBytes(H.LOCAL_SIGNATURE, 0x50, 0x4B, 3, 4);
    FourBytes(H.CENTRAL_SIGNATURE, 0x50, 0x4B, 1, 2);
    FourBytes(W.DESCRIPTOR_SIGNATURE, 0x50, 0x4B, 7, 8);
    FourBytes(EOCD_SIGNATURE, 0x50, 0x4B, 5, 6);
    FourBytes(ZIP64_EOCD_SIGNATURE, 0x50, 0x4B, 6, 6);
    FourBytes(LOCATOR_SIGNATURE, 0x50, 0x4B, 6, 7);
  }

  /** The AES block: seven bytes of payload, AE-2, the letters AE, a key of 256 bits, the method. */
  lemma AesLayout(scheme: u16)
    ensures EncodeAes(scheme) ==
            [0x01, 0x99, 7, 0, 2, 0, 0x41, 0x45, 3, scheme % 256, scheme / 256]
  {
    TwoBytes(AES_TAG, 0x01, 0x99);
    TwoBytes(7, 7, 0);
    TwoBytes(2, 2, 0);
    TwoBytes(scheme, scheme % 256, scheme / 256);
  }

  /** The NTFS block: attribute 1 with three times of eight bytes. */
  lemma NtfsLayout(write: u64, access: u64, creation: u64)
    ensures var s := EncodeNtfs(write, access, creation);
            && |s| == 36 && s[..12] == [0x0A, 0, 32, 0, 0, 0, 0, 0, 1, 0, 24, 0]
            && U64(s[12..20]) == write && U64(s[20..28]) == access && U64(s[28..36]) == creation
  {
    TwoBytes(NTFS_TAG, 0x0A, 0);
    TwoBytes(32, 32, 0);
    FourBytes(0, 0, 0, 0, 0);
    TwoBytes(1, 1, 0);
    TwoBytes(24, 24, 0);
    assert LE(2, NTFS_TAG) + LE(2, 32) + LE(4, 0) + LE(2, 1) + LE(2, 24) == [0x0A, 0, 32, 0, 0, 0, 0, 0, 1, 0, 24, 0];
    NtfsValues([0x0A, 0, 32, 0, 0, 0, 0, 0, 1, 0, 24, 0], write, access, creation);
  }

  lemma NtfsValues(front: bytes, write: u64, access: u64, creation: u64)
    requires |front| == 12
    ensures var s := front + LE(8, write) + LE(8, access) + LE(8, creation);
            && |s| == 36 && s[..12] == front
            && U64(s[12..20]) == write && U64(s[20..28]) == access && U64(s[28..36]) == creation
  {
    NtfsParts(front, LE(8, write), LE(8, access), LE(8, creation));
    ReadWritten8(write);
    ReadWritten8(access);
    ReadWritten8(creation);
  }

  lemma NtfsParts(a: bytes, b: bytes, c: bytes, d: bytes)
    requires |a| == 12 && |b| == |c| == |d| == 8
    ensures var s := a + b + c + d; s[..12] == a && s[12..20] == b && s[20..28] == c && s[28..36] == d
  {
  }

  /** The reader looks for the times where they stand in a block with its tag and length, and takes the
      first for the second: from such a block as payload, the access time comes back exactly when it is
      the time of the last write. */
  lemma NestedNtfs(write: u64, access: u64, creation: u64, x: Conf, e: Shared)
    ensures var b := LE(2, 0x0A) + LE(2, 36) + EncodeNtfs(write, access, creation);
            ScanFrom(b, x, e) == x.(times := Some((write, write, creation)))
  {
    var p := EncodeNtfs(write, access, creation);
    var b := LE(2, 0x0A) + LE(2, 36) + p;
    NtfsLayout(write, access, creation);
    ReadWritten2(0x0A);
    ReadWritten2(36);
    Parts4(LE(2, 0x0A), LE(2, 36), p, []);
    assert b == b + [] && b[4..40] == p && b[40..] == [];
  }

  /** The Zip64 end record: its own size without the first twelve bytes, version 4.5 twice, no other
      disks, the number of entries twice. */
  lemma Zip64EocdLayout(entries: u64, size: u64, offset: u64)
    ensures var s := EncodeZip64Eocd(entries, size, offset);
            && s[..4] == [0x50, 0x4B, 6, 6] && U64(s[4..12]) == |s| - 12 && s[12..16] == [45, 0, 45, 0]
            && s[16..24] == [0, 0, 0, 0, 0, 0, 0, 0]
    ensures var s := EncodeZip64Eocd(entries, size, offset);
            && U64(s[24..32]) == entries && U64(s[32..40]) == entries && U64(s[40..48]) == size
            && U64(s[48..56]) == offset
  {
    Signatures();
    TwoBytes(45, 45, 0);
    FourBytes(0, 0, 0, 0, 0);
    ReadWritten8(44);
    var a := LE(4, ZIP64_EOCD_SIGNATURE) + LE(8, 44) + LE(2, 45) + LE(2, 45) + LE(4, 0) + LE(4, 0);
    var b := LE(8, entries) + LE(8, entries) + LE(8, size) + LE(8, offset);
    assert EncodeZip64Eocd(entries, size, offset) == a + b;
    HeadParts(LE(4, ZIP64_EOCD_SIGNATURE), LE(8, 44), LE(2, 45), LE(4, 0), b);
    FourNumbers(a, entries, entries, size, offset);
  }

  lemma HeadParts(a: bytes, b: bytes, c: bytes, d: bytes, rest: bytes)
    requires |a| == 4 && |b| == 8 && |c| == 2 && |d| == 4
    ensures var s := a + b + c + c + d + d + rest;
            s[..4] == a && s[4..12] == b && s[12..16] == c + c && s[16..24] == d + d
  {
  }

  lemma FourNumbers(a: bytes, w: u64, x: u64, y: u64, z: u64)
    requires |a| == 24
    ensures var s := a + (LE(8, w) + LE(8, x) + LE(8, y) + LE(8, z));
            && U64(s[24..32]) == w && U64(s[32..40]) == x && U64(s[40..48]) == y && U64(s[48..56]) == z
  {
    var b := LE(8, w) + LE(8, x) + LE(8, y) + LE(8, z);
    Parts4(LE(8, w), LE(8, x), LE(8, y), LE(8, z));
    assert (a + b)[24..] == b;
    Onward(a + b, 24, 0, 8);
    Onward(a + b, 24, 8, 16);
    Onward(a + b, 24, 16, 24);
    Onward(a + b, 24, 24, 32);
    ReadWritten8(w);
    ReadWritten8(x);
    ReadWritten8(y);
    ReadWritten8(z);
  }

  /** The locator points to the Zip64 end record, which stands behind the directory, on the only disk. */
  lemma LocatorLayout(entries: u64, size: u64, offset: u64, comment: bytes)
    requires size > MAX_UINT32 || offset > MAX_UINT32 || entries > MAX_UINT16
    requires offset + size < 0x1_0000_0000_0000_0000
    ensures var s := EndBytes(entries, size, offset, comment);
            && |s| == 76 + |EncodeEocd(entries, size, offset, comment)|
            && s[..56] == EncodeZip64Eocd(entries, size, offset) && s[56..60] == [0x50, 0x4B, 6, 7]
            && s[60..64] == [0, 0, 0, 0] && U64(s[64..72]) == offset + size && s[72..76] == [1, 0, 0, 0]
            && s[76..] == EncodeEocd(entries, size, offset, comment)
  {
    Signatures();
    FourBytes(0, 0, 0, 0, 0);
    FourBytes(1, 1, 0, 0, 0);
    ReadWritten8(offset + size);
    LocatorParts(EncodeZip64Eocd(entries, size, offset), LE(4, LOCATOR_SIGNATURE), LE(4, 0), LE(8, offset + size),
                 LE(4, 1), EncodeEocd(entries, size, offset, comment));
  }

  lemma LocatorParts(a: bytes, b: bytes, c: bytes, d: bytes, e: bytes, rest: bytes)
    requires |a| == 56 && |b| == |c| == |e| == 4 && |d| == 8
    ensures var s := a + (b + c + d + e) + rest;
            && s[..56] == a && s[56..60] == b && s[60..64] == c && s[64..72] == d && s[72..76] == e && s[76..] == rest
  {
    var (s, m) := (a + (b + c + d + e) + rest, b + c + d + e);
    Middle(a, m, rest);
    Parts4(b, c, d, e);
    SubSlice(s, 56, 76, 0, 4);
    SubSlice(s, 56, 76, 4, 8);
    SubSlice(s, 56, 76, 8, 16);
    SubSlice(s, 56, 76, 16, 20);
  }

  /** The end record, with everything that does not fit saturated and the comment cut at 65535 bytes. */
  lemma EocdLayout(entries: nat, size: nat, offset: nat, comment: bytes)
    ensures var s := EncodeEocd(entries, size, offset, comment);
            && |s| == 22 + Min(|comment|, 65535) && s[..8] == [0x50, 0x4B, 5, 6, 0, 0, 0, 0]
            && U16(s[8..10]) == U16(s[10..12]) == Min(65535, entries) && U32(s[12..16]) == Min(0xFFFF_FFFF, size)
            && U32(s[16..20]) == Min(0xFFFF_FFFF, offset) && U16(s[20..22]) == |s| - 22
            && s[22..] == comment[..|s| - 22]
  {
    Signatures();
    TwoBytes(0, 0, 0);
    var c := comment[..Min(|comment|, 65535)];
    ReadWritten2(Min(65535, entries));
    ReadWritten4(Min(0xFFFF_FFFF, size));
    ReadWritten4(Min(0xFFFF_FFFF, offset));
    ReadWritten2(|c|);
    EocdParts(LE(4, EOCD_SIGNATURE), LE(2, 0), LE(2, Min(MAX_UINT16, entries)), LE(4, Min(MAX_UINT32, size)),
              LE(4, Min(MAX_UINT32, offset)), LE(2, |c|), c);
  }

  lemma EocdParts(a: bytes, z: bytes, n: bytes, size: bytes, offset: bytes, len: bytes, c: bytes)
    requires |a| == |size| == |offset| == 4 && |z| == |n| == |len| == 2
    ensures var s := a + z + z + n + n + size + offset + len + c;
            && s[..8] == a + z + z && s[8..10] == n && s[10..12] == n && s[12..16] == size && s[16..20] == offset
            && s[20..22] == len && s[22..] == c
  {
  }

  /** An end record of any archive, field by field as in section 4.3.16. */
  function EndRecord(e: Eocd): bytes {
    [0x50, 0x4B, 5, 6] + LE(2, e.thisDisk) + LE(2, e.startDisk) + LE(2, e.diskEntries) + LE(2, e.entries)
    + LE(4, e.size) + LE(4, e.offset) + LE(2, e.commentLen) + e.comment
  }

  lemma EndRecordRead(e: Eocd, rest: bytes)
    requires e.commentLen == |e.comment|
    ensures ReadEocd((EndRecord(e) + rest)[4..]) == Some(e)
  {
    EndNumbers(e);
    EndParts(LE(2, e.thisDisk), LE(2, e.startDisk), LE(2, e.diskEntries), LE(2, e.entries), LE(4, e.size),
             LE(4, e.offset), LE(2, e.commentLen), e.comment, rest);
    var s := LE(2, e.thisDisk) + LE(2, e.startDisk) + LE(2, e.diskEntries) + LE(2, e.entries) + LE(4, e.size)
             + LE(4, e.offset) + LE(2, e.commentLen) + e.comment + rest;
    assert EndRecord(e) + rest == [0x50, 0x4B, 5, 6] + s;
  }

  lemma EndNumbers(e: Eocd)
    ensures U16(LE(2, e.thisDisk)) == e.thisDisk && U16(LE(2, e.startDisk)) == e.startDisk
    ensures U16(LE(2, e.diskEntries)) == e.diskEntries && U16(LE(2, e.entries)) == e.entries
    ensures U32(LE(4, e.size)) == e.size && U32(LE(4, e.offset)) == e.offset && U16(LE(2, e.commentLen)) == e.commentLen
  {
    ReadWritten2(e.thisDisk);
    ReadWritten2(e.startDisk);
    ReadWritten2(e.diskEntries);
    ReadWritten2(e.entries);
    ReadWritten4(e.size);
    ReadWritten4(e.offset);
    ReadWritten2(e.commentLen);
  }

  lemma EndParts(a: bytes, b: bytes, c: bytes, d: bytes, size: bytes, offset: bytes, len: bytes, text: bytes,
                 rest: bytes)
    requires |a| == |b| == |c| == |d| == |len| == 2 && |size| == |offset| == 4
    ensures var s := a + b + c + d + size + offset + len + text + rest;
            && |s| == 18 + |text| + |rest| && s[0..2] == a && s[2..4] == b && s[4..6] == c && s[6..8] == d
            && s[8..12] == size && s[12..16] == offset && s[16..18] == len && s[18..18 + |text|] == text
  {
  }

  /** A Zip64 end record of any archive, found through its locator: what counts are the number of entries
      on all disks and the offset. */
  lemma Zip64EndRead(front: bytes, r: bytes, locator: bytes, eocd: bytes, commentLen: u16)
    requires |r| == 56 && r[..4] == [0x50, 0x4B, 6, 6] && |locator| == 20 && locator[..4] == [0x50, 0x4B, 6, 7]
    requires |eocd| == 22 + commentLen < 0x1_0000 && |front| < 0x8000_0000_0000_0000
    requires U64(locator[8..16]) == |front|
    ensures FindZip64(front + r + locator + eocd, commentLen) == Some((U64(r[48..56]), U64(r[32..40])))
  {
    var (file, at) := (front + r + locator + eocd, |front| + 56);
    assert LocatorAt(file, commentLen) == at;
    Signatures();
    FileParts(front, r, locator, eocd);
    SignatureBytes(file, at, LOCATOR_SIGNATURE);
    SignatureBytes(file, |front|, ZIP64_EOCD_SIGNATURE);
  }

  lemma FileParts(front: bytes, r: bytes, locator: bytes, eocd: bytes)
    requires |r| == 56 && |locator| == 20
    ensures var (file, n) := (front + r + locator + eocd, |front|);
            && |file| == n + 76 + |eocd| && file[n..n + 4] == r[..4] && file[n + 32..n + 40] == r[32..40]
            && file[n + 48..n + 56] == r[48..56]
            && file[n + 56..n + 60] == locator[..4] && file[n + 64..n + 72] == locator[8..16]
  {
    var (file, n) := (front + r + locator + eocd, |front|);
    assert file[n..n + 56] == r && file[n + 56..n + 76] == locator;
    SubSlice(file, n, n + 56, 0, 4);
    SubSlice(file, n, n + 56, 32, 40);
    SubSlice(file, n, n + 56, 48, 56);
    SubSlice(file, n + 56, n + 76, 0, 4);
    SubSlice(file, n + 56, n + 76, 8, 16);
  }

  // ---------------------------------------------------------------- headers of an entry

  /** The numbers that every header of an entry shows, and where: `at` is the place of the version needed. */
  predicate Shows(b: bytes, at: nat, s: Snap) {
    && |b| >= at + 26 && U16(b[at..at + 2]) == VersionNeeded(s) && U16(b[at + 2..at + 4]) == BitFlag(s)
    && U16(b[at + 4..at + 6]) == StoredScheme(s) && U16(b[at + 6..at + 8]) == s.time
    && U16(b[at + 8..at + 10]) == s.date
    && U32(b[at + 10..at + 14]) == s.crc && U32(b[at + 14..at + 18]) == Clamp(s.csize)
    && U32(b[at + 18..at + 22]) == Clamp(s.usize) && U16(b[at + 22..at + 24]) == ToU16(|EntryName(s)|)
  }

  /** A local header: the numbers from byte 4 on, the name at byte 30, the extra field behind it. */
  lemma LocalLayout(s: Snap)
    ensures var (b, n) := (H.EncodeLocal(LocalOf(s)), |EntryName(s)|);
            && b[..4] == [0x50, 0x4B, 3, 4] && Shows(b, 4, s) && U16(b[28..30]) == |b| - 30 - n
            && b[30..30 + n] == EntryName(s) && b[30 + n..] == LocalExtra(s)
  {
    var h := LocalOf(s);
    FewBytes(s);
    LocalParts(h, H.LocalFixed(h), h.name, h.extra);
    NumbersShown(H.EncodeLocal(h), 4, s);
    ReadWritten2(h.extraLen);
  }

  lemma FewBytes(s: Snap)
    ensures ToU16(|LocalExtra(s)|) == |LocalExtra(s)|
  {
    SmallU16(|LocalExtra(s)|);
  }

  lemma LocalParts(h: H.LocalHeader, fixed: bytes, name: bytes, extra: bytes)
    requires fixed == H.LocalFixed(h)
    ensures var b := fixed + name + extra;
            && b[..4] == [0x50, 0x4B, 3, 4] && b[4..6] == LE(2, h.version) && b[6..8] == LE(2, h.flags)
            && b[8..10] == LE(2, h.scheme) && b[10..12] == LE(2, h.time) && b[12..14] == LE(2, h.date)
            && b[14..18] == LE(4, h.crc) && b[18..22] == LE(4, h.csize) && b[22..26] == LE(4, h.usize)
            && b[26..28] == LE(2, h.nameLen) && b[28..30] == LE(2, h.extraLen)
            && b[30..30 + |name|] == name && b[30 + |name|..] == extra
  {
    assert fixed + name + extra == fixed + (name + extra);
    H.LocalFields(h, name + extra);
    Signatures();
    Behind(fixed, name, extra, []);
    assert fixed + name + extra + [] == fixed + name + extra;
  }

  /** The bytes of these numbers. */
  predicate ShownAt(b: bytes, at: nat, s: Snap) {
    && |b| >= at + 26 && b[at..at + 2] == LE(2, VersionNeeded(s)) && b[at + 2..at + 4] == LE(2, BitFlag(s))
    && b[at + 4..at + 6] == LE(2, StoredScheme(s)) && b[at + 6..at + 8] == LE(2, s.time)
    && b[at + 8..at + 10] == LE(2, s.date) && b[at + 10..at + 14] == LE(4, s.crc)
    && b[at + 14..at + 18] == LE(4, Clamp(s.csize)) && b[at + 18..at + 22] == LE(4, Clamp(s.usize))
    && b[at + 22..at + 24] == LE(2, ToU16(|EntryName(s)|))
  }

  lemma NumbersShown(b: bytes, at: nat, s: Snap)
    requires ShownAt(b, at, s)
    ensures Shows(b, at, s)
  {
    ReadWritten2(VersionNeeded(s));
    ReadWritten2(BitFlag(s));
    ReadWritten2(StoredScheme(s));
    ReadWritten2(s.time);
    ReadWritten2(s.date);
    ReadWritten4(s.crc);
    ReadWritten4(Clamp(s.csize));
    ReadWritten4(Clamp(s.usize));
    ReadWritten2(ToU16(|EntryName(s)|));
  }

  lemma Behind(fixed: bytes, a: bytes, b: bytes, c: bytes)
    ensures var s := fixed + a + b + c;
            && s[|fixed|..|fixed| + |a|] == a && s[|fixed| + |a|..|fixed| + |a| + |b|] == b
            && s[|fixed| + |a| + |b|..] == c
  {
  }

  /** A central header: who made it in front of the same numbers, then disk 0, no internal attributes,
      the external attributes and the offset, and at byte 46 name, extra field and comment. */
  lemma CentralLayout(s: Snap, x: bytes)
    requires |x| <= 65535 && |s.config.comment| <= 65535
    ensures var (b, n) := (H.EncodeCentral(CentralOf(s, x)), |EntryName(s)|);
            && b[..4] == [0x50, 0x4B, 1, 2] && U16(b[4..6]) == s.madeBy && Shows(b, 6, s)
            && U16(b[30..32]) == |x| && U16(b[32..34]) == |s.config.comment| && b[34..38] == [0, 0, 0, 0]
            && U32(b[38..42]) == s.attrs && U32(b[42..46]) == Clamp(s.offset)
            && b[46..46 + n] == EntryName(s) && b[46 + n..46 + n + |x|] == x && b[46 + n + |x|..] == s.config.comment
  {
    var h := CentralOf(s, x);
    CentralFront(h, H.CentralFixed(h), h.name, h.extra, h.comment);
    CentralRear(h, H.CentralFixed(h), h.name, h.extra, h.comment);
    NumbersShown(H.EncodeCentral(h), 6, s);
    CentralRead(s, x, H.EncodeCentral(h));
  }

  lemma CentralRead(s: Snap, x: bytes, b: bytes)
    requires |x| <= 65535 && |s.config.comment| <= 65535
    requires |b| >= 46 && b[4..6] == LE(2, s.madeBy) && b[30..32] == LE(2, ToU16(|x|))
    requires b[32..34] == LE(2, ToU16(|s.config.comment|)) && b[34..38] == LE(2, 0) + LE(2, 0)
    requires b[38..42] == LE(4, s.attrs) && b[42..46] == LE(4, Clamp(s.offset))
    ensures U16(b[4..6]) == s.madeBy && U16(b[30..32]) == |x|
    ensures U16(b[32..34]) == |s.config.comment| && b[34..38] == [0, 0, 0, 0] && U32(b[38..42]) == s.attrs
    ensures U32(b[42..46]) == Clamp(s.offset)
  {
    TwoBytes(0, 0, 0);
    ReadWritten2(s.madeBy);
    ReadWritten2(|x|);
    ReadWritten2(|s.config.comment|);
    ReadWritten4(s.attrs);
    ReadWritten4(Clamp(s.offset));
  }

  lemma CentralFront(h: H.CentralHeader, fixed: bytes, name: bytes, extra: bytes, comment: bytes)
    requires fixed == H.CentralFixed(h)
    ensures var b := fixed + name + extra + comment;
            && b[..4] == [0x50, 0x4B, 1, 2] && b[4..6] == LE(2, h.madeBy) && b[6..8] == LE(2, h.version)
            && b[8..10] == LE(2, h.flags) && b[10..12] == LE(2, h.scheme) && b[12..14] == LE(2, h.time)
            && b[14..16] == LE(2, h.date) && b[16..20] == LE(4, h.crc) && b[20..24] == LE(4, h.csize)
            && b[24..28] == LE(4, h.usize)
  {
    assert fixed + name + extra + comment == fixed + (name + extra + comment);
    H.CentralFieldsLow(h, name + extra + comment);
    Signatures();
  }

  lemma CentralRear(h: H.CentralHeader, fixed: bytes, name: bytes, extra: bytes, comment: bytes)
    requires fixed == H.CentralFixed(h)
    ensures var b := fixed + name + extra + comment;
            && b[28..30] == LE(2, h.nameLen) && b[30..32] == LE(2, h.extraLen) && b[32..34] == LE(2, h.commentLen)
            && b[34..38] == LE(2, h.disk) + LE(2, h.internalAttrs) && b[38..42] == LE(4, h.externalAttrs)
            && b[42..46] == LE(4, h.offset) && b[46..46 + |name|] == name
            && b[46 + |name|..46 + |name| + |extra|] == extra && b[46 + |name| + |extra|..] == comment
  {
    var b := fixed + name + extra + comment;
    assert b == fixed + (name + extra + comment);
    H.CentralFieldsHigh(h, name + extra + comment);
    assert b[34..38] == b[34..36] + b[36..38];
    Behind(fixed, name, extra, comment);
  }

  /** Every flag: the text flag is on; the first one for encrypted entries; the second and third show the
      level of entries that are deflated and not empty; all others are as they were. */
  lemma EveryFlag(s: Snap, k: nat)
    ensures Bit(BitFlag(s), k) <==>
            || k == 11 || Bit(s.flags, k) || (k == 0 && s.config.encryption != NotEncrypted)
            || ((k == 1 || k == 2) && s.config.scheme == 8 && s.usize != 0 && Bit(s.config.levelBits, k))
  {
    var f := if s.config.encryption != NotEncrypted then On(s.flags, ENCRYPTED) else s.flags;
    SetBitExactly(s.flags, ENCRYPTED, k);
    var g := if s.config.scheme == DEFLATE && s.usize != 0 then SetLevel(f, s.config.levelBits) else f;
    SetBitExactly(f, 1, k);
    SetBitExactly(if Bit(s.config.levelBits, 1) then On(f, 1) else f, 2, k);
    SetBitExactly(g, UTF8, k);
  }

  /** What is read as name and comment: the bytes in the header if its text flag, of value 2048, is on, and
      else what the decoder makes of them.  A slash at the end makes it a directory. */
  lemma TextRead(h: H.CentralHeader, decode: bytes -> bytes)
    ensures var (f, utf8) := (FileOf(h, decode), h.flags / 2048 % 2 == 1);
            && f.name + (if f.isDir then [47] else []) == (if utf8 then h.name else decode(h.name))
            && (!f.isDir ==> f.name == [] || f.name[|f.name| - 1] != 47)
            && f.comment == (if utf8 then h.comment else decode(h.comment)) && f.crc == h.crc && f.extraRaw == h.extra
  {
    BitEleven(h.flags);
  }

  lemma BitEleven(n: nat)
    ensures Bit(n, 11) <==> n / 2048 % 2 == 1
  {
    assert Pow2(5) == 32;
    assert Pow2(8) == 256;
    BitIs(n, 11, n / 2048, n % 2048);
  }

  /** The method in both headers: 99 for encrypted entries of AES, and 0 for empty ones. */
  lemma MethodIs(s: Snap)
    requires s.config.scheme != 99
    ensures LocalOf(s).scheme == CentralOf(s, []).scheme
    ensures LocalOf(s).scheme == 99 <==> s.config.encryption == Aes256 && s.usize != 0
    ensures LocalOf(s).scheme != 99 ==> LocalOf(s).scheme == if s.usize == 0 then 0 else s.config.scheme
  {
  }

  /** A local header has a Zip64 block of 20 bytes with both sizes when one of them exceeds 32 bits, and
      behind it the AES block of an encrypted entry. */
  lemma LocalBlocks(s: Snap)
    requires 0 <= s.usize < 0x1_0000_0000_0000_0000 && 0 <= s.csize < 0x1_0000_0000_0000_0000
    ensures var (x, large, aes) := (LocalExtra(s), s.usize > 0xFFFF_FFFF || s.csize > 0xFFFF_FFFF,
                                    s.config.encryption == Aes256);
            && |x| == (if large then 20 else 0) + (if aes then 11 else 0)
            && (large ==> x[..4] == [1, 0, 16, 0] && U64(x[4..12]) == s.usize && U64(x[12..20]) == s.csize)
            && (aes ==> x[|x| - 11..] ==
                        [0x01, 0x99, 7, 0, 2, 0, 0x41, 0x45, 3, s.config.scheme % 256, s.config.scheme / 256])
  {
    TwoBytes(ZIP64_TAG, 1, 0);
    TwoBytes(16, 16, 0);
    ReadWritten8(s.usize);
    ReadWritten8(s.csize);
    AesLayout(s.config.scheme);
    BlockParts(LE(2, ZIP64_TAG), LE(2, 16), LE(8, s.usize), LE(8, s.csize),
               if s.config.encryption == Aes256 then EncodeAes(s.config.scheme) else []);
  }

  lemma BlockParts(a: bytes, b: bytes, c: bytes, d: bytes, rest: bytes)
    requires |a| == |b| == 2 && |c| == |d| == 8
    ensures var s := a + b + c + d;
            && s[..4] == a + b && s[4..12] == c && s[12..20] == d
            && (s + rest)[..4] == a + b && (s + rest)[4..12] == c && (s + rest)[12..20] == d && (s + rest)[20..] == rest
  {
  }

  // ---------------------------------------------------------------- blocks of a central header

  /** Other blocks are kept. */
  lemma OtherBlocks(s: Snap, m: ExtraMap, t: u16)
    requires t != 0x9901 && t != 0x0001 && t != 0x000A
    ensures t in WithBlocks(s, m) <==> t in m
    ensures t in m ==> WithBlocks(s, m)[t] == m[t]
  {
  }

  /** The AES block of an encrypted entry shows its method; otherwise what was there before is kept. */
  lemma AesBlockAdded(s: Snap, m: ExtraMap)
    ensures var (w, t) := (WithBlocks(s, m), 0x9901);
            && (t in w <==> s.config.encryption == Aes256 || t in m)
            && (s.config.encryption == Aes256 ==> |w[t]| == 11 && U16(w[t][9..11]) == s.config.scheme)
            && (s.config.encryption != Aes256 && t in m ==> w[t] == m[t])
  {
    AesLayout(s.config.scheme);
    var b := EncodeAes(s.config.scheme);
    TwoBytes(s.config.scheme, s.config.scheme % 256, s.config.scheme / 256);
    assert b[9..11] == LE(2, s.config.scheme);
    ReadWritten2(s.config.scheme);
  }

  /** The NTFS block of an entry with times shows them. */
  lemma NtfsBlockAdded(s: Snap, m: ExtraMap)
    ensures var (w, t) := (WithBlocks(s, m), 0x000A);
            && (t in w <==> s.times.Some? || t in m)
            && (s.times.Some? ==>
                |w[t]| == 36 && (U64(w[t][12..20]), U64(w[t][20..28]), U64(w[t][28..36])) == s.times.value)
            && (s.times.None? && t in m ==> w[t] == m[t])
  {
    if s.times.Some? {
      NtfsLayout(s.times.value.0, s.times.value.1, s.times.value.2);
    }
  }

  /** The Zip64 block shows those of the sizes and the offset that exceed 32 bits, if any. */
  lemma Zip64BlockAdded(s: Snap, m: ExtraMap)
    ensures var (w, t, large) := (WithBlocks(s, m), 0x0001, v => v > 0xFFFF_FFFF);
            && (t in w <==> large(s.usize) || large(s.csize) || large(s.offset) || t in m)
            && (large(s.usize) || large(s.csize) || large(s.offset) ==>
                w[t][4..] == Zip64Payload(s.usize, s.csize, s.offset))
            && (!large(s.usize) && !large(s.csize) && !large(s.offset) && t in m ==> w[t] == m[t])
  {
    var (a, p) := (LE(2, ZIP64_TAG) + LE(2, 4 + |Zip64Payload(s.usize, s.csize, s.offset)|),
                   Zip64Payload(s.usize, s.csize, s.offset));
    assert (a + p)[4..] == p;
  }

  /** The panic with an unparsed extra field comes exactly when a block would be added to an empty one. */
  lemma AddsBlockIff(s: Snap)
    ensures AddsBlock(s) <==> WithBlocks(s, map[]) != map[]
  {
    AesBlockAdded(s, map[]);
    NtfsBlockAdded(s, map[]);
    Zip64BlockAdded(s, map[]);
    if !AddsBlock(s) {
      assert WithBlocks(s, map[]) == map[];
    }
  }
}
