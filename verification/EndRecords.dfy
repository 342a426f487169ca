/** The end records of an archive (APPNOTE 6.3, sections 4.3.14 to 4.3.16): writing them, finding the
    end of central directory record by a backward scan, and recovering where the directory is. */
module EndRecords {
  import opened Wrappers
  import opened Bytes
  import opened ExtraField

  const EOCD_SIGNATURE: u32 := 0x06054b50
  const ZIP64_EOCD_SIGNATURE: u32 := 0x06064b50
  const LOCATOR_SIGNATURE: u32 := 0x07064b50

  const EOCD_SIZE: int := 22
  const LOCATOR_SIZE: int := 20
  const MAX_STRING_LENGTH: int := 65535
  const SCAN_BUFFER: int := 4096

  datatype Eocd = Eocd(thisDisk: u16, startDisk: u16, diskEntries: u16, entries: u16, size: u32, offset: u32,
                       commentLen: u16, comment: bytes)

  // ---------------------------------------------------------------- encoders

  function Clipped(comment: bytes): (c: bytes)
    ensures |c| <= MAX_STRING_LENGTH
  {
    comment[..Min(|comment|, MAX_STRING_LENGTH)]
  }

  function EncodeEocd(entries: nat, size: nat, offset: nat, comment: bytes): (s: bytes)
    ensures |s| == EOCD_SIZE + |Clipped(comment)|
  {
    LE(4, EOCD_SIGNATURE) + LE(2, 0) + LE(2, 0) + LE(2, Min(MAX_UINT16, entries)) + LE(2, Min(MAX_UINT16, entries))
    + LE(4, Min(MAX_UINT32, size)) + LE(4, Min(MAX_UINT32, offset)) + LE(2, |Clipped(comment)|) + Clipped(comment)
  }

  function EncodeZip64Eocd(entries: nat, size: nat, offset: nat): (s: bytes)
    ensures |s| == 56
  {
    LE(4, ZIP64_EOCD_SIGNATURE) + LE(8, 44) + LE(2, 45) + LE(2, 45) + LE(4, 0) + LE(4, 0)
    + LE(8, entries) + LE(8, entries) + LE(8, size) + LE(8, offset)
  }

  function EncodeLocator(offset: nat): (s: bytes)
    ensures |s| == LOCATOR_SIZE
  {
    LE(4, LOCATOR_SIGNATURE) + LE(4, 0) + LE(8, offset) + LE(4, 1)
  }

  predicate ArchiveRequiresZip64(entries: nat, size: nat, offset: nat) {
    size > MAX_UINT32 || offset > MAX_UINT32 || entries > MAX_UINT16
  }

  /** What `WriteCentralDirAndEndRecords` writes behind the central directory. */
  function EndBytes(entries: nat, size: nat, offset: nat, comment: bytes): bytes {
    (if ArchiveRequiresZip64(entries, size, offset)
     then EncodeZip64Eocd(entries, size, offset) + EncodeLocator(offset + size) else [])
    + EncodeEocd(entries, size, offset, comment)
  }

  /** Every position of the directory gives other end records. */
  lemma EndTellsOffset(entries: nat, size: nat, a: nat, b: nat, comment: bytes)
    requires EndBytes(entries, size, a, comment) == EndBytes(entries, size, b, comment) && a < 0x8000_0000_0000_0000
             && b < 0x8000_0000_0000_0000
    ensures a == b
  {
    var (za, zb) := (ArchiveRequiresZip64(entries, size, a), ArchiveRequiresZip64(entries, size, b));
    assert za == zb;
    if za {
      Zip64Offset(entries, size, a, EncodeLocator(a + size) + EncodeEocd(entries, size, a, comment));
      Zip64Offset(entries, size, b, EncodeLocator(b + size) + EncodeEocd(entries, size, b, comment));
      Associate(EncodeZip64Eocd(entries, size, a), EncodeLocator(a + size), EncodeEocd(entries, size, a, comment));
      Associate(EncodeZip64Eocd(entries, size, b), EncodeLocator(b + size), EncodeEocd(entries, size, b, comment));
      ReadWritten8(a);
      ReadWritten8(b);
    } else {
      assert EndBytes(entries, size, a, comment) == EncodeEocd(entries, size, a, comment);
      assert EndBytes(entries, size, b, comment) == EncodeEocd(entries, size, b, comment);
      EocdOffset(entries, size, a, comment);
      EocdOffset(entries, size, b, comment);
      ReadWritten4(a);
      ReadWritten4(b);
    }
  }

  lemma Zip64Offset(entries: nat, size: nat, offset: nat, rest: bytes)
    ensures (EncodeZip64Eocd(entries, size, offset) + rest)[48..56] == LE(8, offset)
  {
    var front := LE(4, ZIP64_EOCD_SIGNATURE) + LE(8, 44) + LE(2, 45) + LE(2, 45) + LE(4, 0) + LE(4, 0)
                 + LE(8, entries) + LE(8, entries) + LE(8, size);
    Middle(front, LE(8, offset), rest);
  }

  lemma EocdOffset(entries: nat, size: nat, offset: nat, comment: bytes)
    ensures EncodeEocd(entries, size, offset, comment)[16..20] == LE(4, Min(MAX_UINT32, offset))
  {
    EocdFields([], entries, size, offset, comment);
    assert [] + EncodeEocd(entries, size, offset, comment) == EncodeEocd(entries, size, offset, comment);
  }

  // ---------------------------------------------------------------- decoders

  /** Reads a record whose signature has been consumed. */
  function ReadEocd(src: bytes): Option<Eocd> {
    if |src| < 18 then None
    else
      var c := U16(src[16..18]);
      if |src| < 18 + c then None
      else Some(Eocd(U16(src[0..2]), U16(src[2..4]), U16(src[4..6]), U16(src[6..8]), U32(src[8..12]), U32(src[12..16]),
                     c, src[18..18 + c]))
  }

  /** A record starts at `p` and its comment reaches exactly to the end of the file. */
  predicate Candidate(file: bytes, p: nat) {
    && SignatureAt(file, p, EOCD_SIGNATURE)
    && p + EOCD_SIZE <= |file|
    && U16(file[p + 20..p + 22]) == |file| - (p + EOCD_SIZE)
  }

  ghost predicate NoCandidateFrom(file: bytes, p: int) {
    forall q: nat :: p <= q ==> !Candidate(file, q)
  }

  lemma CandidateReads(file: bytes, p: nat)
    requires p + EOCD_SIZE <= |file|
    ensures ReadEocd(file[p + 4..]).Some? && ReadEocd(file[p + 4..]).value.commentLen == |file| - (p + EOCD_SIZE)
       <==> U16(file[p + 20..p + 22]) == |file| - (p + EOCD_SIZE)
  {
    assert file[p + 4..][16..18] == file[p + 20..p + 22];
  }

  // ---------------------------------------------------------------- the backward scan

  /** One window: the last candidate that starts in it. */
  method TryReadSignature(file: bytes, readPos: nat, readSize: nat) returns (r: Option<Eocd>, ghost at: nat)
    requires readPos + readSize <= |file|
    ensures r.Some? ==>
              readPos <= at && at + 4 <= readPos + readSize && Candidate(file, at) && r == ReadEocd(file[at + 4..])
    ensures r.Some? ==> forall q: nat :: at < q && q + 4 <= readPos + readSize ==> !Candidate(file, q)
    ensures r.None? ==> forall q: nat :: readPos <= q && q + 4 <= readPos + readSize ==> !Candidate(file, q)
  {
    var buf := file[readPos..readPos + readSize];
    at := 0;
    var p: int := readSize - 4;
    while p >= 0
      invariant -4 <= p <= readSize - 4
      invariant forall q: nat :: readPos + p < q && readPos <= q && q + 4 <= readPos + readSize ==> !Candidate(file, q)
    {
      var recordOffset := readPos + p;
      SubSlice(file, readPos, readPos + readSize, p, p + 4);
      if U32(buf[p..p + 4]) == EOCD_SIGNATURE && recordOffset + EOCD_SIZE <= |file| {
        var expected := |file| - (recordOffset + EOCD_SIZE);
        if expected <= MAX_STRING_LENGTH {
          CandidateReads(file, recordOffset);
          var eocd := ReadEocd(file[recordOffset + 4..]);
          if eocd.Some? && eocd.value.commentLen == expected {
            return eocd, recordOffset;
          }
        }
      }
      p := p - 1;
    }
    return None, 0;
  }

  /** `FindAndReadEOCD`: overlapping windows of 4096 bytes from the end of the file, over at most the
      last 65557 bytes.  It finds exactly the last candidate of the whole file. */
  method FindEocd(file: bytes) returns (r: Option<Eocd>, ghost at: nat)
    ensures r.Some? ==> Candidate(file, at) && NoCandidateFrom(file, at + 1) && r == ReadEocd(file[at + 4..])
    ensures r.None? ==> NoCandidateFrom(file, 0)
  {
    if |file| < EOCD_SIZE {
      return None, 0;
    }
    var lower := |file| - Min(MAX_STRING_LENGTH + EOCD_SIZE, |file|);
    var off := |file|;
    while off > lower
      invariant lower <= off - 3 || off == |file|
      invariant lower <= off <= |file|
      invariant NoCandidateFrom(file, off - 3)
      decreases off
    {
      var readSize := SCAN_BUFFER;
      var readPos := off - readSize;
      if readPos < lower {
        readPos := lower;
        readSize := off - readPos;
      }
      r, at := TryReadSignature(file, readPos, readSize);
      if r.Some? {
        return;
      }
      off := off - (readSize - 3);
      if readSize < 4 {
        break;
      }
    }
    assert NoCandidateFrom(file, lower);
    return None, 0;
  }

  // ---------------------------------------------------------------- which record is found

  lemma Parts5(pre: bytes, a: bytes, b: bytes, c: bytes, d: bytes, rest: bytes)
    ensures var p, s := |pre|, pre + (a + b + c + d + rest);
            && s[p..p + |a|] == a && s[p + |a|..p + |a| + |b|] == b
            && s[p + |a| + |b|..p + |a| + |b| + |c|] == c
            && s[p + |a| + |b| + |c|..p + |a| + |b| + |c| + |d|] == d && s[p + |a| + |b| + |c| + |d|..] == rest
  {
  }

  lemma EocdFields(pre: bytes, entries: nat, size: nat, offset: nat, comment: bytes)
    ensures var p, s := |pre|, pre + EncodeEocd(entries, size, offset, comment);
            && s[p..p + 4] == LE(4, EOCD_SIGNATURE) && s[p + 4..p + 6] == LE(2, 0) && s[p + 6..p + 8] == LE(2, 0)
            && s[p + 8..p + 10] == LE(2, Min(MAX_UINT16, entries))
               && s[p + 10..p + 12] == LE(2, Min(MAX_UINT16, entries))
            && s[p + 12..p + 16] == LE(4, Min(MAX_UINT32, size)) && s[p + 16..p + 20] == LE(4, Min(MAX_UINT32, offset))
            && s[p + 20..p + 22] == LE(2, |Clipped(comment)|) && s[p + 22..] == Clipped(comment)
  {
    EocdFieldsOf(pre, LE(4, EOCD_SIGNATURE), LE(2, 0), LE(2, 0), LE(2, Min(MAX_UINT16, entries)),
                 LE(2, Min(MAX_UINT16, entries)),
                 LE(4, Min(MAX_UINT32, size)), LE(4, Min(MAX_UINT32, offset)), LE(2, |Clipped(comment)|),
                   Clipped(comment));
  }

  lemma EocdFieldsOf(pre: bytes, a: bytes, b: bytes, c: bytes, d: bytes, e: bytes, f: bytes, g: bytes, h: bytes,
                     rest: bytes)
    requires |a| == 4 && |b| == |c| == |d| == |e| == 2 && |f| == |g| == 4 && |h| == 2
    ensures var p, s := |pre|, pre + (a + b + c + d + e + f + g + h + rest);
            && s[p..p + 4] == a && s[p + 4..p + 6] == b && s[p + 6..p + 8] == c && s[p + 8..p + 10] == d
            && s[p + 10..p + 12] == e && s[p + 12..p + 16] == f && s[p + 16..p + 20] == g
            && s[p + 20..p + 22] == h && s[p + 22..] == rest
  {
    var s := pre + (a + b + c + d + e + f + g + h + rest);
    assert s == pre + (a + b + c + d + (e + f + g + h + rest));
    Parts5(pre, a, b, c, d, e + f + g + h + rest);
    assert s == (pre + a + b + c + d) + (e + f + g + h + rest);
    Parts5(pre + a + b + c + d, e, f, g, h, rest);
  }

  function TrueEocd(entries: nat, size: nat, offset: nat, comment: bytes): Eocd {
    Eocd(0, 0, Min(MAX_UINT16, entries), Min(MAX_UINT16, entries), Min(MAX_UINT32, size), Min(MAX_UINT32, offset),
         |Clipped(comment)|, Clipped(comment))
  }

  lemma FieldsShifted(file: bytes, p: nat)
    requires p + EOCD_SIZE <= |file|
    ensures var t := file[p + 4..];
            && t[0..2] == file[p + 4..p + 6] && t[2..4] == file[p + 6..p + 8] && t[4..6] == file[p + 8..p + 10]
            && t[6..8] == file[p + 10..p + 12] && t[8..12] == file[p + 12..p + 16] && t[12..16] == file[p + 16..p + 20]
            && t[16..18] == file[p + 20..p + 22] && t[18..] == file[p + 22..]
  {
  }

  /** The record the writer puts at the end is always a candidate, and reads back as written. */
  lemma WrittenEocdReads(pre: bytes, entries: nat, size: nat, offset: nat, comment: bytes)
    ensures var file := pre + EncodeEocd(entries, size, offset, comment);
            Candidate(file, |pre|) && ReadEocd(file[|pre| + 4..]) == Some(TrueEocd(entries, size, offset, comment))
  {
    var file, p := pre + EncodeEocd(entries, size, offset, comment), |pre|;
    EocdFields(pre, entries, size, offset, comment);
    SignatureBytes(file, p, EOCD_SIGNATURE);
    EocdFromFields(file, p, entries, size, offset, comment);
  }

  lemma EocdFromFields(file: bytes, p: nat, entries: nat, size: nat, offset: nat, comment: bytes)
    requires p + EOCD_SIZE <= |file|
    requires file[p + 4..p + 6] == LE(2, 0) && file[p + 6..p + 8] == LE(2, 0)
    requires file[p + 8..p + 10] == LE(2, Min(MAX_UINT16, entries))
             && file[p + 10..p + 12] == LE(2, Min(MAX_UINT16, entries))
    requires file[p + 12..p + 16] == LE(4, Min(MAX_UINT32, size))
             && file[p + 16..p + 20] == LE(4, Min(MAX_UINT32, offset))
    requires file[p + 20..p + 22] == LE(2, |Clipped(comment)|) && file[p + 22..] == Clipped(comment)
    ensures U16(file[p + 20..p + 22]) == |Clipped(comment)|
    ensures ReadEocd(file[p + 4..]) == Some(TrueEocd(entries, size, offset, comment))
  {
    FieldsShifted(file, p);
    ReadWritten2(0);
    ReadWritten2(Min(MAX_UINT16, entries));
    ReadWritten4(Min(MAX_UINT32, size));
    ReadWritten4(Min(MAX_UINT32, offset));
    ReadWritten2(|Clipped(comment)|);
    var t := file[p + 4..];
    assert t[18..18 + |Clipped(comment)|] == t[18..];
  }

  /** The record found in a written archive is the written one exactly when no self-consistent record
      starts behind its beginning, that is, inside the archive comment. */
  lemma WrittenEocdFoundIff(pre: bytes, entries: nat, size: nat, offset: nat, comment: bytes, found: Option<Eocd>,
                            at: nat)
    requires var file := pre + EncodeEocd(entries, size, offset, comment);
             && (found.Some? ==>
                 Candidate(file, at) && NoCandidateFrom(file, at + 1) && found == ReadEocd(file[at + 4..]))
             && (found.None? ==> NoCandidateFrom(file, 0))
    ensures var file := pre + EncodeEocd(entries, size, offset, comment);
            found == Some(TrueEocd(entries, size, offset, comment)) <==> NoCandidateFrom(file, |pre| + 1)
  {
    var file := pre + EncodeEocd(entries, size, offset, comment);
    WrittenEocdReads(pre, entries, size, offset, comment);
    assert Candidate(file, |pre|);
    assert found.Some?;
    CandidateReads(file, at);
    assert found.value.commentLen == |file| - (at + EOCD_SIZE);
  }

  /** Without an archive comment nothing can hide the record. */
  lemma EmptyCommentIsSafe(pre: bytes, entries: nat, size: nat, offset: nat)
    ensures NoCandidateFrom(pre + EncodeEocd(entries, size, offset, []), |pre| + 1)
  {
  }

  // ---------------------------------------------------------------- where the directory is

  /** `findAndReadZip64EOCD`: the offset and the entry count of the Zip64 record.  The position of the
      locator is computed from a 16-bit sum. */
  function FindZip64(file: bytes, commentLen: u16): Option<(u64, u64)> {
    var at := LocatorAt(file, commentLen);
    if at < 0 || !SignatureAt(file, at, LOCATOR_SIGNATURE) || at + LOCATOR_SIZE > |file| then None
    else
      var z := ToInt64(U64At(file, at + 8));
      if z < 0 || !SignatureAt(file, z, ZIP64_EOCD_SIGNATURE) || z + 56 > |file| then None
      else Some((U64At(file, z + 48), U64At(file, z + 32)))
  }

  function U64At(s: bytes, i: nat): u64
    requires i + 8 <= |s|
  {
    U64(s[i..i + 8])
  }

  lemma WrittenU64At(s: bytes, i: nat, v: u64)
    requires i + 8 <= |s| && s[i..i + 8] == LE(8, v)
    ensures U64At(s, i) == v
  {
    ReadWritten8(v);
  }

  function LocatorAt(file: bytes, commentLen: u16): int {
    |file| - ToU16(EOCD_SIZE + commentLen) - LOCATOR_SIZE
  }

  /** The first lines of `ReadFiles`: offset and number of the directory entries. */
  function DirectoryOf(file: bytes, e: Eocd): Option<(u64, u64)> {
    if e.offset == MAX_UINT32 || e.entries == MAX_UINT16 then FindZip64(file, e.commentLen)
    else Some((e.offset, e.entries))
  }

  /** The values for which the reader understands the writer: either it takes offset and count from
      the record itself, or Zip64 records exist and the comment leaves the 16-bit sum intact. */
  predicate EndReadable(entries: nat, size: nat, offset: nat, comment: bytes) {
    || (entries < MAX_UINT16 && offset < MAX_UINT32)
    || (ArchiveRequiresZip64(entries, size, offset) && |Clipped(comment)| <= 65513)
  }

  lemma Zip64Fields(pre: bytes, entries: nat, size: nat, offset: nat, post: bytes)
    ensures var p, s := |pre|, pre + EncodeZip64Eocd(entries, size, offset) + post;
            && s[p..p + 4] == LE(4, ZIP64_EOCD_SIGNATURE)
            && s[p + 32..p + 40] == LE(8, entries) && s[p + 48..p + 56] == LE(8, offset)
  {
    var head := LE(8, 44) + LE(2, 45) + LE(2, 45) + LE(4, 0) + LE(4, 0) + LE(8, entries);
    var z := EncodeZip64Eocd(entries, size, offset);
    assert z == LE(4, ZIP64_EOCD_SIGNATURE) + head + LE(8, entries) + LE(8, size) + LE(8, offset);
    assert pre + z + post == pre +
           (LE(4, ZIP64_EOCD_SIGNATURE) + head + LE(8, entries) + LE(8, size) + (LE(8, offset) + post));
    Parts5(pre, LE(4, ZIP64_EOCD_SIGNATURE), head, LE(8, entries), LE(8, size), LE(8, offset) + post);
    var s, p := pre + z + post, |pre|;
    assert s[p + 48..p + 56] == s[p + 48..][..8];
  }

  lemma LocatorFields(pre: bytes, offset: nat, post: bytes)
    ensures var p, s := |pre|, pre + EncodeLocator(offset) + post;
            && s[p..p + 4] == LE(4, LOCATOR_SIGNATURE) && s[p + 8..p + 16] == LE(8, offset)
  {
  }

  predicate In63(v: nat) {
    v < 0x8000_0000_0000_0000
  }

  /** The end records of an archive whose local section is `body` and whose directory is `cd`: the
      reader recovers the true offset and count exactly for readable values.  For the others it
      looks for a locator where the writer put none, and fails unless one happens to be there. */
  lemma EndRoundTrip(body: bytes, cd: bytes, entries: nat, comment: bytes)
    requires In63(entries) && In63(|body| + |cd|)
    ensures var file, e := body + cd + EndBytes(entries, |cd|, |body|, comment),
            TrueEocd(entries, |cd|, |body|, comment);
            && (EndReadable(entries, |cd|, |body|, comment) ==> DirectoryOf(file, e) == Some((|body|, entries)))
            && (!EndReadable(entries, |cd|, |body|, comment)
                && (LocatorAt(file, e.commentLen) >= 0 ==>
                    !SignatureAt(file, LocatorAt(file, e.commentLen), LOCATOR_SIGNATURE))
                ==> DirectoryOf(file, e) == None)
  {
    var file, e := body + cd + EndBytes(entries, |cd|, |body|, comment), TrueEocd(entries, |cd|, |body|, comment);
    if ArchiveRequiresZip64(entries, |cd|, |body|) && |Clipped(comment)| <= 65513 {
      Zip64EndLaidOut(body + cd, entries, |cd|, |body|, EncodeEocd(entries, |cd|, |body|, comment));
      AssociateThree(body + cd, EncodeZip64Eocd(entries, |cd|, |body|), EncodeLocator(|body| + |cd|),
                        EncodeEocd(entries, |cd|, |body|, comment));
      Zip64EndReads(file, |body| + |cd|, entries, |body|, e.commentLen);
    }
  }

  lemma Zip64EndLaidOut(pre: bytes, entries: nat, size: nat, offset: nat, eocd: bytes)
    ensures var z, file := |pre|, pre + EncodeZip64Eocd(entries, size, offset) + EncodeLocator(|pre|) + eocd;
            && file[z..z + 4] == LE(4, ZIP64_EOCD_SIGNATURE)
            && file[z + 32..z + 40] == LE(8, entries) && file[z + 48..z + 56] == LE(8, offset)
            && file[z + 56..z + 60] == LE(4, LOCATOR_SIGNATURE) && file[z + 64..z + 72] == LE(8, z)
  {
    var z64, loc := EncodeZip64Eocd(entries, size, offset), EncodeLocator(|pre|);
    assert pre + z64 + (loc + eocd) == pre + z64 + loc + eocd;
    Zip64Fields(pre, entries, size, offset, loc + eocd);
    LocatorFields(pre + z64, |pre|, eocd);
  }

  lemma Zip64EndReads(file: bytes, z: nat, entries: nat, offset: nat, commentLen: u16)
    requires In63(entries) && In63(offset) && In63(z) && commentLen <= 65513
    requires |file| == z + 56 + LOCATOR_SIZE + EOCD_SIZE + commentLen
    requires file[z..z + 4] == LE(4, ZIP64_EOCD_SIGNATURE)
    requires file[z + 32..z + 40] == LE(8, entries) && file[z + 48..z + 56] == LE(8, offset)
    requires file[z + 56..z + 60] == LE(4, LOCATOR_SIGNATURE) && file[z + 64..z + 72] == LE(8, z)
    ensures FindZip64(file, commentLen) == Some((offset, entries))
  {
    SignatureBytes(file, z + 56, LOCATOR_SIGNATURE);
    SignatureBytes(file, z, ZIP64_EOCD_SIGNATURE);
    WrittenU64At(file, z + 32, entries);
    WrittenU64At(file, z + 48, offset);
    WrittenU64At(file, z + 64, z);
    Zip64EndAt(file, z, commentLen);
  }

  lemma Zip64EndAt(file: bytes, z: nat, commentLen: u16)
    requires commentLen <= 65513 && |file| == z + 56 + LOCATOR_SIZE + EOCD_SIZE + commentLen
    requires SignatureAt(file, z + 56, LOCATOR_SIGNATURE) && SignatureAt(file, z, ZIP64_EOCD_SIGNATURE)
    requires In63(z) && U64At(file, z + 64) == z
    ensures FindZip64(file, commentLen) == Some((U64At(file, z + 48), U64At(file, z + 32)))
  {
    assert LocatorAt(file, commentLen) == z + 56;
  }
}
