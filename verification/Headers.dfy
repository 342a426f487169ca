/** The fixed records of a ZIP archive: local file header and central directory header
    (APPNOTE 6.3, sections 4.3.7 and 4.3.12), as bytes and as values. */
module Headers {
  import opened Wrappers
  import opened Bytes

  const LOCAL_SIGNATURE: u32 := 0x04034b50
  const CENTRAL_SIGNATURE: u32 := 0x02014b50

  datatype LocalHeader = LocalHeader(
    version: u16, flags: u16, scheme: u16, time: u16, date: u16,
    crc: u32, csize: u32, usize: u32, nameLen: u16, extraLen: u16,
    name: bytes, extra: bytes)

  datatype CentralHeader = CentralHeader(
    madeBy: u16, version: u16, flags: u16, scheme: u16, time: u16, date: u16,
    crc: u32, csize: u32, usize: u32, nameLen: u16, extraLen: u16, commentLen: u16,
    disk: u16, internalAttrs: u16, externalAttrs: u32, offset: u32,
    name: bytes, extra: bytes, comment: bytes)

  // ---------------------------------------------------------------- encoders

  /** The fixed part, field by field. */
  function LocalField(h: LocalHeader, i: nat): bytes {
    if i == 0 then LE(4, LOCAL_SIGNATURE)
    else if i == 1 then LE(2, h.version)
    else if i == 2 then LE(2, h.flags)
    else if i == 3 then LE(2, h.scheme)
    else if i == 4 then LE(2, h.time)
    else if i == 5 then LE(2, h.date)
    else if i == 6 then LE(4, h.crc)
    else if i == 7 then LE(4, h.csize)
    else if i == 8 then LE(4, h.usize)
    else if i == 9 then LE(2, h.nameLen)
    else LE(2, h.extraLen)
  }

  function LocalPrefix(h: LocalHeader, k: nat): bytes {
    if k == 0 then [] else LocalPrefix(h, k - 1) + LocalField(h, k - 1)
  }

  /** Where field `i` begins. */
  function LocalOffset(i: nat): int {
    if i == 0 then 0 else if i <= 6 then 2 * i + 2 else if i <= 9 then 4 * i - 10 else 2 * i + 8
  }

  lemma {:induction false} LocalOffsets(h: LocalHeader, k: nat)
    requires k <= 11
    ensures |LocalPrefix(h, k)| == LocalOffset(k)
  {
    if k > 0 {
      LocalOffsets(h, k - 1);
    }
  }

  /** Field `i` stands at its offset, whatever follows. */
  lemma {:induction false} LocalFieldAt(h: LocalHeader, i: nat, k: nat, tail: bytes)
    requires i < k <= 11
    ensures 0 <= LocalOffset(i) <= LocalOffset(i + 1) <= |LocalPrefix(h, k)|
    ensures (LocalPrefix(h, k) + tail)[LocalOffset(i)..LocalOffset(i + 1)] == LocalField(h, i)
  {
    LocalOffsets(h, k);
    LocalOffsets(h, i);
    var last := LocalField(h, k - 1);
    assert LocalPrefix(h, k) + tail == LocalPrefix(h, k - 1) + (last + tail);
    if i < k - 1 {
      LocalFieldAt(h, i, k - 1, last + tail);
    }
  }

  function LocalFixed(h: LocalHeader): (s: bytes)
    ensures |s| == 30
  {
    LocalOffsets(h, 11);
    LocalPrefix(h, 11)
  }

  function EncodeLocal(h: LocalHeader): bytes {
    LocalFixed(h) + h.name + h.extra
  }

  /** The fixed part, field by field. */
  function CentralField(h: CentralHeader, i: nat): bytes {
    if i == 0 then LE(4, CENTRAL_SIGNATURE)
    else if i == 1 then LE(2, h.madeBy)
    else if i == 2 then LE(2, h.version)
    else if i == 3 then LE(2, h.flags)
    else if i == 4 then LE(2, h.scheme)
    else if i == 5 then LE(2, h.time)
    else if i == 6 then LE(2, h.date)
    else if i == 7 then LE(4, h.crc)
    else if i == 8 then LE(4, h.csize)
    else if i == 9 then LE(4, h.usize)
    else if i == 10 then LE(2, h.nameLen)
    else if i == 11 then LE(2, h.extraLen)
    else if i == 12 then LE(2, h.commentLen)
    else if i == 13 then LE(2, h.disk)
    else if i == 14 then LE(2, h.internalAttrs)
    else if i == 15 then LE(4, h.externalAttrs)
    else LE(4, h.offset)
  }

  function CentralPrefix(h: CentralHeader, k: nat): bytes {
    if k == 0 then [] else CentralPrefix(h, k - 1) + CentralField(h, k - 1)
  }

  /** Where field `i` begins. */
  function CentralOffset(i: nat): int {
    if i == 0 then 0
    else if i <= 7 then 2 * i + 2
    else if i <= 10 then 4 * i - 12
    else if i <= 15 then 2 * i + 8
    else 4 * i - 22
  }

  lemma {:induction false} CentralOffsets(h: CentralHeader, k: nat)
    requires k <= 17
    ensures |CentralPrefix(h, k)| == CentralOffset(k)
  {
    if k > 0 {
      CentralOffsets(h, k - 1);
    }
  }

  lemma {:induction false} CentralFieldAt(h: CentralHeader, i: nat, k: nat, tail: bytes)
    requires i < k <= 17
    ensures 0 <= CentralOffset(i) <= CentralOffset(i + 1) <= |CentralPrefix(h, k)|
    ensures (CentralPrefix(h, k) + tail)[CentralOffset(i)..CentralOffset(i + 1)] == CentralField(h, i)
  {
    CentralOffsets(h, k);
    CentralOffsets(h, i);
    var last := CentralField(h, k - 1);
    assert CentralPrefix(h, k) + tail == CentralPrefix(h, k - 1) + (last + tail);
    if i < k - 1 {
      CentralFieldAt(h, i, k - 1, last + tail);
    }
  }

  function CentralFixed(h: CentralHeader): (s: bytes)
    ensures |s| == 46
  {
    CentralOffsets(h, 17);
    CentralPrefix(h, 17)
  }

  function EncodeCentral(h: CentralHeader): bytes {
    CentralFixed(h) + h.name + h.extra + h.comment
  }

  // ---------------------------------------------------------------- decoders

  /** Reads a local header whose signature has been consumed; also the rest of the stream. */
  function ReadLocal(src: bytes): Option<(LocalHeader, bytes)> {
    if |src| < 26 then None
    else
      var n, x := U16(src[22..24]), U16(src[24..26]);
      if |src| < 26 + n + x then None
      else
        Some((LocalHeader(
          U16(src[0..2]), U16(src[2..4]), U16(src[4..6]), U16(src[6..8]), U16(src[8..10]),
          U32(src[10..14]), U32(src[14..18]), U32(src[18..22]), n, x,
          src[26..26 + n], src[26 + n..26 + n + x]), src[26 + n + x..]))
  }

  /** Reads a central directory header whose signature has been consumed. */
  function ReadCentral(src: bytes): Option<(CentralHeader, bytes)> {
    if |src| < 42 then None
    else
      var n, x, c := U16(src[24..26]), U16(src[26..28]), U16(src[28..30]);
      if |src| < 42 + n + x + c then None
      else
        Some((CentralHeader(
          U16(src[0..2]), U16(src[2..4]), U16(src[4..6]), U16(src[6..8]), U16(src[8..10]), U16(src[10..12]),
          U32(src[12..16]), U32(src[16..20]), U32(src[20..24]), n, x, c,
          U16(src[30..32]), U16(src[32..34]), U32(src[34..38]), U32(src[38..42]),
          src[42..42 + n], src[42 + n..42 + n + x], src[42 + n + x..42 + n + x + c]), src[42 + n + x + c..]))
  }

  // ---------------------------------------------------------------- round trips

  lemma LocalFields(h: LocalHeader, tail: bytes)
    ensures var s := LocalFixed(h) + tail;
            && s[0..4] == LE(4, LOCAL_SIGNATURE)
            && s[4..6] == LE(2, h.version) && s[6..8] == LE(2, h.flags) && s[8..10] == LE(2, h.scheme)
            && s[10..12] == LE(2, h.time) && s[12..14] == LE(2, h.date)
            && s[14..18] == LE(4, h.crc) && s[18..22] == LE(4, h.csize) && s[22..26] == LE(4, h.usize)
            && s[26..28] == LE(2, h.nameLen) && s[28..30] == LE(2, h.extraLen) && s[30..] == tail
  {
    LocalFieldAt(h, 0, 11, tail); LocalFieldAt(h, 1, 11, tail); LocalFieldAt(h, 2, 11, tail);
    LocalFieldAt(h, 3, 11, tail);
    LocalFieldAt(h, 4, 11, tail); LocalFieldAt(h, 5, 11, tail); LocalFieldAt(h, 6, 11, tail);
    LocalFieldAt(h, 7, 11, tail);
    LocalFieldAt(h, 8, 11, tail); LocalFieldAt(h, 9, 11, tail); LocalFieldAt(h, 10, 11, tail);
  }

  lemma CentralFieldsLow(h: CentralHeader, tail: bytes)
    ensures var s := CentralFixed(h) + tail;
            && s[0..4] == LE(4, CENTRAL_SIGNATURE) && s[4..6] == LE(2, h.madeBy)
            && s[6..8] == LE(2, h.version) && s[8..10] == LE(2, h.flags) && s[10..12] == LE(2, h.scheme)
            && s[12..14] == LE(2, h.time) && s[14..16] == LE(2, h.date)
            && s[16..20] == LE(4, h.crc) && s[20..24] == LE(4, h.csize) && s[24..28] == LE(4, h.usize)
  {
    CentralFieldAt(h, 0, 17, tail); CentralFieldAt(h, 1, 17, tail); CentralFieldAt(h, 2, 17, tail);
    CentralFieldAt(h, 3, 17, tail);
    CentralFieldAt(h, 4, 17, tail); CentralFieldAt(h, 5, 17, tail); CentralFieldAt(h, 6, 17, tail);
    CentralFieldAt(h, 7, 17, tail);
    CentralFieldAt(h, 8, 17, tail); CentralFieldAt(h, 9, 17, tail);
  }

  lemma CentralFieldsHigh(h: CentralHeader, tail: bytes)
    ensures var s := CentralFixed(h) + tail;
            && s[28..30] == LE(2, h.nameLen) && s[30..32] == LE(2, h.extraLen) && s[32..34] == LE(2, h.commentLen)
            && s[34..36] == LE(2, h.disk) && s[36..38] == LE(2, h.internalAttrs)
            && s[38..42] == LE(4, h.externalAttrs) && s[42..46] == LE(4, h.offset) && s[46..] == tail
  {
    CentralLengths(h, tail);
    CentralAttributes(h, tail);
  }

  lemma CentralLengths(h: CentralHeader, tail: bytes)
    ensures var s := CentralFixed(h) + tail;
            s[28..30] == LE(2, h.nameLen) && s[30..32] == LE(2, h.extraLen) && s[32..34] == LE(2, h.commentLen)
  {
    CentralFieldAt(h, 10, 17, tail);
    CentralFieldAt(h, 11, 17, tail);
    CentralFieldAt(h, 12, 17, tail);
  }

  lemma CentralAttributes(h: CentralHeader, tail: bytes)
    ensures var s := CentralFixed(h) + tail;
            && s[34..36] == LE(2, h.disk) && s[36..38] == LE(2, h.internalAttrs)
            && s[38..42] == LE(4, h.externalAttrs) && s[42..46] == LE(4, h.offset) && s[46..] == tail
  {
    CentralFieldAt(h, 13, 17, tail);
    CentralFieldAt(h, 14, 17, tail);
    CentralFieldAt(h, 15, 17, tail);
    CentralFieldAt(h, 16, 17, tail);
  }

  lemma Shift(s: bytes, i: nat, j: nat)
    requires 4 <= i <= j <= |s|
    ensures s[4..][i - 4..j - 4] == s[i..j]
  {
  }

  /** A local header written in front of any bytes is read back, with exactly those bytes left over,
      exactly when its length fields are the lengths of its name and extra field. */
  lemma LocalRoundTrip(h: LocalHeader, rest: bytes)
    requires h.nameLen == |h.name| && h.extraLen == |h.extra|
    ensures SignatureAt(EncodeLocal(h) + rest, 0, LOCAL_SIGNATURE)
    ensures ReadLocal((EncodeLocal(h) + rest)[4..]) == Some((h, rest))
  {
    var s := EncodeLocal(h) + rest;
    var tail := h.name + h.extra + rest;
    assert s == LocalFixed(h) + tail;
    LocalFields(h, tail);
    SignatureBytes(s, 0, LOCAL_SIGNATURE);
    var t := s[4..];
    LocalParts(s, h);
    assert t[26..] == h.name + h.extra + [] + rest by {
      assert t[26..] == s[30..];
      assert tail == h.name + h.extra + [] + rest;
    }
    Pieces(t, 26, h.name, h.extra, [], rest);
  }

  lemma LocalParts(s: bytes, h: LocalHeader)
    requires |s| >= 30
    requires s[4..6] == LE(2, h.version) && s[6..8] == LE(2, h.flags) && s[8..10] == LE(2, h.scheme)
    requires s[10..12] == LE(2, h.time) && s[12..14] == LE(2, h.date)
    requires s[14..18] == LE(4, h.crc) && s[18..22] == LE(4, h.csize) && s[22..26] == LE(4, h.usize)
    requires s[26..28] == LE(2, h.nameLen) && s[28..30] == LE(2, h.extraLen)
    ensures var t := s[4..];
            && U16(t[0..2]) == h.version && U16(t[2..4]) == h.flags && U16(t[4..6]) == h.scheme
            && U16(t[6..8]) == h.time && U16(t[8..10]) == h.date
            && U32(t[10..14]) == h.crc && U32(t[14..18]) == h.csize && U32(t[18..22]) == h.usize
            && U16(t[22..24]) == h.nameLen && U16(t[24..26]) == h.extraLen
  {
    Shift(s, 4, 6); Shift(s, 6, 8); Shift(s, 8, 10); Shift(s, 10, 12); Shift(s, 12, 14);
    Shift(s, 14, 18); Shift(s, 18, 22); Shift(s, 22, 26); Shift(s, 26, 28); Shift(s, 28, 30);
    ReadWritten2(h.version); ReadWritten2(h.flags); ReadWritten2(h.scheme); ReadWritten2(h.time);
    ReadWritten2(h.date); ReadWritten4(h.crc); ReadWritten4(h.csize); ReadWritten4(h.usize);
    ReadWritten2(h.nameLen); ReadWritten2(h.extraLen);
  }

  lemma CentralPartsLow(s: bytes, h: CentralHeader)
    requires |s| >= 46
    requires s[4..6] == LE(2, h.madeBy) && s[6..8] == LE(2, h.version) && s[8..10] == LE(2, h.flags)
    requires s[10..12] == LE(2, h.scheme) && s[12..14] == LE(2, h.time) && s[14..16] == LE(2, h.date)
    requires s[16..20] == LE(4, h.crc) && s[20..24] == LE(4, h.csize) && s[24..28] == LE(4, h.usize)
    ensures var t := s[4..];
            && U16(t[0..2]) == h.madeBy && U16(t[2..4]) == h.version && U16(t[4..6]) == h.flags
            && U16(t[6..8]) == h.scheme && U16(t[8..10]) == h.time && U16(t[10..12]) == h.date
            && U32(t[12..16]) == h.crc && U32(t[16..20]) == h.csize && U32(t[20..24]) == h.usize
  {
    Shift(s, 4, 6); Shift(s, 6, 8); Shift(s, 8, 10); Shift(s, 10, 12); Shift(s, 12, 14); Shift(s, 14, 16);
    Shift(s, 16, 20); Shift(s, 20, 24); Shift(s, 24, 28);
    ReadWritten2(h.madeBy); ReadWritten2(h.version); ReadWritten2(h.flags); ReadWritten2(h.scheme);
    ReadWritten2(h.time); ReadWritten2(h.date); ReadWritten4(h.crc); ReadWritten4(h.csize); ReadWritten4(h.usize);
  }

  lemma CentralPartsHigh(s: bytes, h: CentralHeader)
    requires |s| >= 46
    requires s[28..30] == LE(2, h.nameLen) && s[30..32] == LE(2, h.extraLen) && s[32..34] == LE(2, h.commentLen)
    requires s[34..36] == LE(2, h.disk) && s[36..38] == LE(2, h.internalAttrs)
    requires s[38..42] == LE(4, h.externalAttrs) && s[42..46] == LE(4, h.offset)
    ensures var t := s[4..];
            && U16(t[24..26]) == h.nameLen && U16(t[26..28]) == h.extraLen && U16(t[28..30]) == h.commentLen
            && U16(t[30..32]) == h.disk && U16(t[32..34]) == h.internalAttrs
            && U32(t[34..38]) == h.externalAttrs && U32(t[38..42]) == h.offset
  {
    Shift(s, 28, 30); Shift(s, 30, 32); Shift(s, 32, 34); Shift(s, 34, 36); Shift(s, 36, 38);
    Shift(s, 38, 42); Shift(s, 42, 46);
    ReadWritten2(h.nameLen); ReadWritten2(h.extraLen); ReadWritten2(h.commentLen); ReadWritten2(h.disk);
    ReadWritten2(h.internalAttrs); ReadWritten4(h.externalAttrs); ReadWritten4(h.offset);
  }

  lemma CentralRoundTrip(h: CentralHeader, rest: bytes)
    requires h.nameLen == |h.name| && h.extraLen == |h.extra| && h.commentLen == |h.comment|
    ensures SignatureAt(EncodeCentral(h) + rest, 0, CENTRAL_SIGNATURE)
    ensures ReadCentral((EncodeCentral(h) + rest)[4..]) == Some((h, rest))
  {
    var tail := h.name + h.extra + h.comment + rest;
    assert EncodeCentral(h) + rest == CentralFixed(h) + tail;
    CentralFieldsLow(h, tail);
    CentralFieldsHigh(h, tail);
    CentralFromFixed(CentralFixed(h) + tail, h, rest);
  }

  lemma CentralFromFixed(s: bytes, h: CentralHeader, rest: bytes)
    requires h.nameLen == |h.name| && h.extraLen == |h.extra| && h.commentLen == |h.comment|
    requires |s| >= 46 && s[46..] == h.name + h.extra + h.comment + rest && s[0..4] == LE(4, CENTRAL_SIGNATURE)
    requires s[4..6] == LE(2, h.madeBy) && s[6..8] == LE(2, h.version) && s[8..10] == LE(2, h.flags)
    requires s[10..12] == LE(2, h.scheme) && s[12..14] == LE(2, h.time) && s[14..16] == LE(2, h.date)
    requires s[16..20] == LE(4, h.crc) && s[20..24] == LE(4, h.csize) && s[24..28] == LE(4, h.usize)
    requires s[28..30] == LE(2, h.nameLen) && s[30..32] == LE(2, h.extraLen) && s[32..34] == LE(2, h.commentLen)
    requires s[34..36] == LE(2, h.disk) && s[36..38] == LE(2, h.internalAttrs)
    requires s[38..42] == LE(4, h.externalAttrs) && s[42..46] == LE(4, h.offset)
    ensures SignatureAt(s, 0, CENTRAL_SIGNATURE) && ReadCentral(s[4..]) == Some((h, rest))
  {
    SignatureBytes(s, 0, CENTRAL_SIGNATURE);
    CentralPartsLow(s, h);
    CentralPartsHigh(s, h);
    assert s[4..][42..] == s[46..];
    Pieces(s[4..], 42, h.name, h.extra, h.comment, rest);
    CentralAssembled(s[4..], h, rest);
  }

  lemma Pieces(t: bytes, off: nat, a: bytes, b: bytes, c: bytes, rest: bytes)
    requires off <= |t| && t[off..] == a + b + c + rest
    ensures off + |a| + |b| + |c| <= |t|
    ensures t[off..off + |a|] == a && t[off + |a|..off + |a| + |b|] == b
    ensures t[off + |a| + |b|..off + |a| + |b| + |c|] == c && t[off + |a| + |b| + |c|..] == rest
  {
    var u := t[off..];
    assert u[..|a|] == a && u[|a|..|a| + |b|] == b && u[|a| + |b|..|a| + |b| + |c|] == c
           && u[|a| + |b| + |c|..] == rest;
  }

  lemma CentralAssembled(t: bytes, h: CentralHeader, rest: bytes)
    requires h.nameLen == |h.name| && h.extraLen == |h.extra| && h.commentLen == |h.comment|
    requires |t| >= 42 + |h.name| + |h.extra| + |h.comment|
    requires U16(t[0..2]) == h.madeBy && U16(t[2..4]) == h.version && U16(t[4..6]) == h.flags
    requires U16(t[6..8]) == h.scheme && U16(t[8..10]) == h.time && U16(t[10..12]) == h.date
    requires U32(t[12..16]) == h.crc && U32(t[16..20]) == h.csize && U32(t[20..24]) == h.usize
    requires U16(t[24..26]) == h.nameLen && U16(t[26..28]) == h.extraLen && U16(t[28..30]) == h.commentLen
    requires U16(t[30..32]) == h.disk && U16(t[32..34]) == h.internalAttrs
    requires U32(t[34..38]) == h.externalAttrs && U32(t[38..42]) == h.offset
    requires t[42..42 + |h.name|] == h.name && t[42 + |h.name|..42 + |h.name| + |h.extra|] == h.extra
    requires t[42 + |h.name| + |h.extra|..42 + |h.name| + |h.extra| + |h.comment|] == h.comment
    requires t[42 + |h.name| + |h.extra| + |h.comment|..] == rest
    ensures ReadCentral(t) == Some((h, rest))
  {
  }

  // ---------------------------------------------------------------- the encoders in place

  /** `binary.LittleEndian.PutUint16/32/64` at `off`, seen from the start `base` of the record. */
  method Put(a: array<byte>, ghost base: nat, off: nat, n: nat, v: int)
    requires base <= off && off + n <= a.Length
    modifies a
    ensures a[..base] == old(a[..base])
    ensures a[base..off + n] == old(a[base..off]) + LE(n, v)
  {
    var w := v;
    for i := 0 to n
      invariant a[..off] == old(a[..off])
      invariant a[off..off + i] == LE(n, v)[..i]
      invariant LE(n, v)[i..] == LE(n - i, w)
    {
      assert LE(n, v)[i] == LE(n, v)[i..][0] == w % 256;
      assert LE(n, v)[i + 1..] == LE(n, v)[i..][1..];
      a[off + i] := w % 256;
      w := w / 256;
    }
    PutParts(old(a[..]), a[..], base, off, off + n);
  }

  lemma PutParts(before: bytes, after: bytes, base: nat, off: nat, end: nat)
    requires base <= off <= end <= |before| == |after| && after[..off] == before[..off]
    ensures after[..base] == before[..base] && after[base..end] == before[base..off] + after[off..end]
  {
    assert after[..base] == after[..off][..base] && before[..base] == before[..off][..base];
    assert after[base..off] == after[..off][base..] && before[base..off] == before[..off][base..];
  }

  /** The slice `a[:n]` with `data` appended: in place when the capacity allows, else in a new array. */
  method AppendSlice(a: array<byte>, n: nat, data: bytes) returns (b: array<byte>)
    requires n <= a.Length
    modifies a
    ensures (b == a || fresh(b)) && b.Length >= a.Length
    ensures n + |data| <= b.Length && b[..n + |data|] == old(a[..n]) + data
  {
    if a.Length - n >= |data| {
      b := a;
    } else {
      b := new byte[n + |data|](_ => 0);
      forall i | 0 <= i < n {
        b[i] := a[i];
      }
    }
    assert b[..n] == old(a[..n]);
    forall i | 0 <= i < |data| {
      b[n + i] := data[i];
    }
    assert b[..n + |data|] == old(a[..n]) + data;
  }

  /** The room `AppendBytes` asks for, in 16-bit arithmetic. */
  function Needed(fixed: nat, lengths: nat): u16 {
    ToU16(fixed + lengths)
  }

  /** Makes room for `needed` more bytes, copying to a new array if the capacity does not allow them. */
  method Reserve(a: array<byte>, n: nat, needed: nat) returns (b: array<byte>)
    requires n <= a.Length
    ensures b == a || fresh(b)
    ensures b.Length >= a.Length && b.Length >= n + needed && b[..n] == a[..n]
  {
    b := a;
    if b.Length - n < needed {
      b := new byte[n + needed](_ => 0);
      forall i | 0 <= i < n {
        b[i] := a[i];
      }
    }
  }

  /** Writes field `i` behind the fields before it. */
  method PutLocalField(h: LocalHeader, buf: array<byte>, n: nat, i: nat, width: nat, v: int)
    requires i < 11 && LocalField(h, i) == LE(width, v) && LocalOffset(i + 1) == LocalOffset(i) + width
    requires n + 30 <= buf.Length && buf[n..n + LocalOffset(i)] == LocalPrefix(h, i)
    modifies buf
    ensures buf[..n] == old(buf[..n]) && buf[n..n + LocalOffset(i + 1)] == LocalPrefix(h, i + 1)
  {
    Put(buf, n, n + LocalOffset(i), width, v);
  }

  method PutLocalStart(h: LocalHeader, buf: array<byte>, n: nat)
    requires n + 30 <= buf.Length
    requires buf[n..n + LocalOffset(0)] == LocalPrefix(h, 0)
    modifies buf
    ensures buf[..n] == old(buf[..n]) && buf[n..n + LocalOffset(6)] == LocalPrefix(h, 6)
  {
    PutLocalField(h, buf, n, 0, 4, LOCAL_SIGNATURE);
    PutLocalField(h, buf, n, 1, 2, h.version);
    PutLocalField(h, buf, n, 2, 2, h.flags);
    PutLocalField(h, buf, n, 3, 2, h.scheme);
    PutLocalField(h, buf, n, 4, 2, h.time);
    PutLocalField(h, buf, n, 5, 2, h.date);
  }

  method PutLocalEnd(h: LocalHeader, buf: array<byte>, n: nat)
    requires n + 30 <= buf.Length
    requires buf[n..n + LocalOffset(6)] == LocalPrefix(h, 6)
    modifies buf
    ensures buf[..n] == old(buf[..n]) && buf[n..n + LocalOffset(11)] == LocalPrefix(h, 11)
  {
    PutLocalField(h, buf, n, 6, 4, h.crc);
    PutLocalField(h, buf, n, 7, 4, h.csize);
    PutLocalField(h, buf, n, 8, 4, h.usize);
    PutLocalField(h, buf, n, 9, 2, h.nameLen);
    PutLocalField(h, buf, n, 10, 2, h.extraLen);
  }

  method PutLocalFixed(h: LocalHeader, buf: array<byte>, n: nat)
    requires n + 30 <= buf.Length
    modifies buf
    ensures buf[..n + 30] == old(buf[..n]) + LocalFixed(h)
  {
    PutLocalStart(h, buf, n);
    PutLocalEnd(h, buf, n);
    assert buf[..n + 30] == buf[..n] + buf[n..n + 30];
  }

  /** `LocalFileHeader.AppendBytes` on the slice `a[:n]`.  Because `needed` wraps around, the code
      panics unless 30 bytes are left in the capacity or the wrapped sum is at least 30. */
  method AppendLocal(h: LocalHeader, a: array<byte>, n: nat) returns (b: array<byte>)
    requires n <= a.Length
    requires a.Length - n >= 30 || Needed(30, h.nameLen + h.extraLen) >= 30
    modifies a
    ensures (b == a || fresh(b)) && b.Length >= a.Length
    ensures n + |EncodeLocal(h)| <= b.Length && b[..n + |EncodeLocal(h)|] == old(a[..n]) + EncodeLocal(h)
  {
    ghost var before := a[..n];
    b := Reserve(a, n, Needed(30, h.nameLen + h.extraLen));
    PutLocalFixed(h, b, n);
    b := AppendSlice(b, n + 30, h.name);
    b := AppendSlice(b, n + 30 + |h.name|, h.extra);
    AssociateThree(before, LocalFixed(h), h.name, h.extra);
  }

  /** Writes field `i` behind the fields before it. */
  method PutCentralField(h: CentralHeader, buf: array<byte>, n: nat, i: nat, width: nat, v: int)
    requires i < 17 && CentralField(h, i) == LE(width, v) && CentralOffset(i + 1) == CentralOffset(i) + width
    requires n + 46 <= buf.Length && buf[n..n + CentralOffset(i)] == CentralPrefix(h, i)
    modifies buf
    ensures buf[..n] == old(buf[..n]) && buf[n..n + CentralOffset(i + 1)] == CentralPrefix(h, i + 1)
  {
    Put(buf, n, n + CentralOffset(i), width, v);
  }

  method PutCentralStart(h: CentralHeader, buf: array<byte>, n: nat)
    requires n + 46 <= buf.Length
    requires buf[n..n + CentralOffset(0)] == CentralPrefix(h, 0)
    modifies buf
    ensures buf[..n] == old(buf[..n]) && buf[n..n + CentralOffset(6)] == CentralPrefix(h, 6)
  {
    PutCentralField(h, buf, n, 0, 4, CENTRAL_SIGNATURE);
    PutCentralField(h, buf, n, 1, 2, h.madeBy);
    PutCentralField(h, buf, n, 2, 2, h.version);
    PutCentralField(h, buf, n, 3, 2, h.flags);
    PutCentralField(h, buf, n, 4, 2, h.scheme);
    PutCentralField(h, buf, n, 5, 2, h.time);
  }

  method PutCentralMiddle(h: CentralHeader, buf: array<byte>, n: nat)
    requires n + 46 <= buf.Length
    requires buf[n..n + CentralOffset(6)] == CentralPrefix(h, 6)
    modifies buf
    ensures buf[..n] == old(buf[..n]) && buf[n..n + CentralOffset(12)] == CentralPrefix(h, 12)
  {
    PutCentralField(h, buf, n, 6, 2, h.date);
    PutCentralField(h, buf, n, 7, 4, h.crc);
    PutCentralField(h, buf, n, 8, 4, h.csize);
    PutCentralField(h, buf, n, 9, 4, h.usize);
    PutCentralField(h, buf, n, 10, 2, h.nameLen);
    PutCentralField(h, buf, n, 11, 2, h.extraLen);
  }

  method PutCentralEnd(h: CentralHeader, buf: array<byte>, n: nat)
    requires n + 46 <= buf.Length
    requires buf[n..n + CentralOffset(12)] == CentralPrefix(h, 12)
    modifies buf
    ensures buf[..n] == old(buf[..n]) && buf[n..n + CentralOffset(17)] == CentralPrefix(h, 17)
  {
    PutCentralField(h, buf, n, 12, 2, h.commentLen);
    PutCentralField(h, buf, n, 13, 2, h.disk);
    PutCentralField(h, buf, n, 14, 2, h.internalAttrs);
    PutCentralField(h, buf, n, 15, 4, h.externalAttrs);
    PutCentralField(h, buf, n, 16, 4, h.offset);
  }

  method PutCentralFixed(h: CentralHeader, buf: array<byte>, n: nat)
    requires n + 46 <= buf.Length
    modifies buf
    ensures buf[..n + 46] == old(buf[..n]) + CentralFixed(h)
  {
    PutCentralStart(h, buf, n);
    PutCentralMiddle(h, buf, n);
    PutCentralEnd(h, buf, n);
    FrontAndNext(buf[..], n, n + 46);
  }

  lemma FrontAndNext(s: bytes, n: nat, end: nat)
    requires n <= end <= |s|
    ensures s[..end] == s[..n] + s[n..end]
  {
  }

  /** `CentralDirectory.AppendBytes`, with the same wrap-around. */
  method AppendCentral(h: CentralHeader, a: array<byte>, n: nat) returns (b: array<byte>)
    requires n <= a.Length
    requires a.Length - n >= 46 || Needed(46, h.nameLen + h.extraLen + h.commentLen) >= 46
    modifies a
    ensures (b == a || fresh(b)) && b.Length >= a.Length
    ensures n + |EncodeCentral(h)| <= b.Length && b[..n + |EncodeCentral(h)|] == old(a[..n]) + EncodeCentral(h)
  {
    ghost var before := a[..n];
    b := Reserve(a, n, Needed(46, h.nameLen + h.extraLen + h.commentLen));
    PutCentralFixed(h, b, n);
    ghost var fixed := CentralFixed(h);
    b := AppendThree(b, n + 46, before + fixed, h.name, h.extra, h.comment);
    AssociateFour(before, fixed, h.name, h.extra, h.comment);
  }

  method AppendThree(a: array<byte>, n: nat, ghost front: bytes, x: bytes, y: bytes, z: bytes) returns (b: array<byte>)
    requires n <= a.Length && a[..n] == front
    modifies a
    ensures (b == a || fresh(b)) && b.Length >= a.Length
    ensures |front + x + y + z| <= b.Length && b[..|front + x + y + z|] == front + x + y + z
  {
    b := AppendSlice(a, n, x);
    b := AppendSlice(b, n + |x|, y);
    b := AppendSlice(b, n + |x| + |y|, z);
  }

  lemma AssociateFour(pre: bytes, a: bytes, b: bytes, c: bytes, d: bytes)
    ensures pre + a + b + c + d == pre + (a + b + c + d)
    ensures |pre + a + b + c + d| == |pre| + |a| + |b| + |c| + |d|
  {
  }

  /** The wrap-around is reachable: a name of 65510 bytes alone makes the local header ask for 4 bytes. */
  lemma NeededWraps()
    ensures Needed(30, 65510) == 4
  {
  }
}
