/** Forward reading and the archives of the writer: which entries end where the next one begins, and
    that forward reading then finds what the directory lists. */
module StreamArchive {
  import opened Wrappers
  import opened Bytes
  import opened Headers
  import opened ExtraField
  import opened EndRecords
  import opened Snapshot
  import opened SignatureReader
  import opened Repeat
  import opened Stream
  import opened Archive
  import opened ParallelArchive
  import W = Writer

  // ---------------------------------------------------------------- the end of one record

  function Section(r: W.Record): bytes {
    r.payload + r.descriptor
  }

  /** The entry can be skipped: whatever follows it, that is what is left. */
  ghost predicate SkipsExactly(r: W.Record) {
    forall rest: bytes :: AfterSkip(Section(r) + rest, r.local, ConfOfLocal(r.local).csize) == Some(rest)
  }

  /** The entry can be opened and read to its end: whatever follows it, that is what is left. */
  ghost predicate OpensExactly(r: W.Record) {
    forall rest: bytes :: AfterOpened(Section(r) + rest, r.local, Opened(RawOf(r.local), false)) == Some(rest)
  }

  /** How far `n` bytes of data and the descriptor behind them reach; None if there is no descriptor. */
  function EndBehind(s: bytes, n: int, h: LocalHeader): Option<nat> {
    var k := if n <= 0 then 0 else n;
    if !Flagged(h) then Some(k)
    else if k + 4 > |s| then None
    else Some(k + DescriptorWidth(s[k..], ConfOfLocal(h).hasZip64))
  }

  function SkipEnd(r: W.Record): Option<nat> {
    var f := First(Section(r), DescriptorSig(), 0);
    if !Flagged(r.local) then EndBehind(Section(r), ConfOfLocal(r.local).csize, r.local)
    else if f.None? then None
    else EndBehind(Section(r), f.value, r.local)
  }

  function OpenEnd(r: W.Record): Option<nat> {
    if RawOf(r.local).UntilSignature? then SkipEnd(r) else EndBehind(Section(r), ConfOfLocal(r.local).usize, r.local)
  }

  /** The first signature is the same with more bytes behind. */
  lemma FirstInFront(s: bytes, sig: bytes, rest: bytes)
    requires First(s, sig, 0).Some?
    ensures First(s + rest, sig, 0) == First(s, sig, 0)
  {
    assert (s + rest)[..|s|] == s;
    WindowHit(s + rest, sig, |s|);
  }

  /** What is left behind `k` bytes of data, and the descriptor if there is one. */
  function AfterData(s: bytes, k: nat, h: LocalHeader): Option<bytes> {
    var more := s[Min(k, |s|)..];
    if Flagged(h) then AfterDescriptor(more, h) else Some(more)
  }

  lemma DescriptorInside(s: bytes, k: nat, h: LocalHeader, rest: bytes)
    requires Flagged(h) && k + 4 <= |s|
    ensures var n := k + DescriptorWidth(s[k..], ConfOfLocal(h).hasZip64);
            AfterData(s + rest, k, h) == if n <= |s + rest| then Some((s + rest)[n..]) else None
  {
    var d := (s + rest)[k..];
    assert d[..4] == s[k..][..4];
    var w := DescriptorWidth(d, ConfOfLocal(h).hasZip64);
    if w <= |d| {
      Onward(s + rest, k, 0, w);
    }
  }

  /** `k` bytes and the descriptor end exactly with `s`, whatever follows, if and only if they reach that
      far. */
  lemma EndsExactlyIff(s: bytes, k: nat, h: LocalHeader)
    ensures (forall rest: bytes :: AfterData(s + rest, k, h) == Some(rest)) <==> EndBehind(s, k, h) == Some(|s|)
  {
    if EndBehind(s, k, h) == Some(|s|) {
      forall rest: bytes
        ensures AfterData(s + rest, k, h) == Some(rest)
      {
        assert (s + rest)[|s|..] == rest;
        if Flagged(h) {
          DescriptorInside(s, k, h, rest);
        }
      }
    } else if k + 4 <= |s| && Flagged(h) {
      DescriptorInside(s, k, h, []);
      assert s + [] == s;
      assert AfterData(s + [], k, h) != Some([]);
    } else if Flagged(h) {
      assert AfterData(s + [], k, h) == None;
    } else {
      assert |(s + [0])[Min(k, |s + [0]|)..]| != 1 || k == |s|;
      assert AfterData(s + [0], k, h) != Some([0]);
    }
  }

  /** An entry is skipped exactly, whatever follows, if and only if the skip ends with the record. */
  lemma SkipsExactlyIff(r: W.Record)
    ensures SkipsExactly(r) <==> SkipEnd(r) == Some(|Section(r)|)
  {
    var (s, h, n) := (Section(r), r.local, ConfOfLocal(r.local).csize);
    if !Flagged(h) {
      PlainSkip(r);
    } else if First(s, DescriptorSig(), 0).Some? {
      var f := First(s, DescriptorSig(), 0).value;
      EndsExactlyIff(s, f, h);
      forall rest: bytes
        ensures AfterSkip(s + rest, h, n) == AfterData(s + rest, f, h)
      {
        FirstInFront(s, DescriptorSig(), rest);
      }
      assert SkipsExactly(r) ==> forall rest: bytes :: AfterData(s + rest, f, h) == Some(rest) by {
        if SkipsExactly(r) {
          forall rest: bytes
            ensures AfterData(s + rest, f, h) == Some(rest)
          {
            assert AfterSkip(s + rest, h, n) == Some(rest);
          }
        }
      }
    } else {
      assert s + [] == s;
      assert AfterSkip(s + [], h, n) == None;
    }
  }

  lemma PlainSkip(r: W.Record)
    requires !Flagged(r.local)
    ensures SkipsExactly(r) <==> SkipEnd(r) == Some(|Section(r)|)
  {
    var (s, n) := (Section(r), ConfOfLocal(r.local).csize);
    if SkipEnd(r) == Some(|s|) {
      forall rest: bytes
        ensures AfterSkip(s + rest, r.local, n) == Some(rest)
      {
        assert (s + rest)[|s|..] == rest && (s + rest)[0..] == s + rest;
      }
    } else {
      assert s + [] == s;
      assert AfterSkip(s + [], r.local, n) != Some([]);
    }
  }

  /** The same for an entry that is opened. */
  lemma OpensExactlyIff(r: W.Record)
    ensures OpensExactly(r) <==> OpenEnd(r) == Some(|Section(r)|)
  {
    var (s, h, o) := (Section(r), r.local, Opened(RawOf(r.local), false));
    if o.raw.Limited? {
      LimitedEnd(s, h, o);
    } else if First(s, DescriptorSig(), 0).Some? {
      ScannedEnd(s, h, o);
    } else {
      NeverScanned(s, h, o);
    }
  }

  lemma LimitedEnd(s: bytes, h: LocalHeader, o: Opened)
    requires o.raw.Limited? && !o.ended
    ensures (forall rest: bytes :: AfterOpened(s + rest, h, o) == Some(rest)) <==>
            EndBehind(s, o.raw.left, h) == Some(|s|)
  {
    var k := if o.raw.left <= 0 then 0 else o.raw.left;
    EndsExactlyIff(s, k, h);
    forall rest: bytes
      ensures AfterOpened(s + rest, h, o) == AfterData(s + rest, k, h)
    {
      OpenedIsData(s + rest, h, o, k);
    }
    AgreeOnAll(s, h, o, k);
  }

  lemma OpenedIsData(x: bytes, h: LocalHeader, o: Opened, k: nat)
    requires !o.ended && DataLength(o, x) == Min(k, |x|)
    ensures AfterOpened(x, h, o) == AfterData(x, k, h)
  {
  }

  lemma ScannedEnd(s: bytes, h: LocalHeader, o: Opened)
    requires o.raw.UntilSignature? && !o.ended && First(s, DescriptorSig(), 0).Some?
    ensures (forall rest: bytes :: AfterOpened(s + rest, h, o) == Some(rest))
       <==> EndBehind(s, First(s, DescriptorSig(), 0).value, h) == Some(|s|)
  {
    var f := First(s, DescriptorSig(), 0).value;
    ScannedAsData(s, h, o, f);
    AgreeOnAll(s, h, o, f);
    EndsExactlyIff(s, f, h);
  }

  lemma ScannedAsData(s: bytes, h: LocalHeader, o: Opened, f: nat)
    requires o.raw.UntilSignature? && !o.ended && First(s, DescriptorSig(), 0) == Some(f)
    ensures forall rest: bytes :: AfterOpened(s + rest, h, o) == AfterData(s + rest, f, h)
  {
    forall rest: bytes
      ensures AfterOpened(s + rest, h, o) == AfterData(s + rest, f, h)
    {
      FirstInFront(s, DescriptorSig(), rest);
      OpenedIsData(s + rest, h, o, f);
    }
  }

  lemma NeverScanned(s: bytes, h: LocalHeader, o: Opened)
    requires o.raw.UntilSignature? && !o.ended && First(s, DescriptorSig(), 0).None? && Flagged(h)
    ensures !(forall rest: bytes :: AfterOpened(s + rest, h, o) == Some(rest))
  {
    assert s + [] == s;
    assert |s[DataLength(o, s)..]| <= 3;
    assert AfterOpened(s + [], h, o) == None;
  }

  lemma AgreeOnAll(s: bytes, h: LocalHeader, o: Opened, k: nat)
    requires forall rest: bytes :: AfterOpened(s + rest, h, o) == AfterData(s + rest, k, h)
    ensures (forall rest: bytes :: AfterOpened(s + rest, h, o) == Some(rest)) <==>
            (forall rest: bytes :: AfterData(s + rest, k, h) == Some(rest))
  {
    if forall rest: bytes :: AfterOpened(s + rest, h, o) == Some(rest) {
      forall rest: bytes
        ensures AfterData(s + rest, k, h) == Some(rest)
      {
        assert AfterOpened(s + rest, h, o) == Some(rest);
      }
    }
  }

  // ---------------------------------------------------------------- what the local header shows

  predicate Int64(v: int) {
    -0x8000_0000_0000_0000 <= v < 0x8000_0000_0000_0000
  }

  predicate Bounded(s: Snap) {
    Int64(s.csize) && Int64(s.usize)
  }

  predicate Big(s: Snap) {
    s.usize > MAX_UINT32 || s.csize > MAX_UINT32
  }

  /** The uncompressed and the compressed size shown by a header whose extra field was made for `t`: a
      Zip64 block is read for the saturated fields only, in order. */
  function ReadSizes(t: Snap, usize: u32, csize: u32): (int, int) {
    var u := if Big(t) && usize == MAX_UINT32 then t.usize else usize;
    var c := if Big(t) && csize == MAX_UINT32 then (if usize == MAX_UINT32 then t.csize else t.usize) else csize;
    (u, c)
  }

  lemma Int64Read(v: int)
    requires Int64(v)
    ensures ToInt64(U64(LE(8, v))) == v
  {
    Widths();
    ReadTruncated(8, v);
    UnLEBound(LE(8, v));
    SignedValue(v, U64(LE(8, v)), Overflow(8, v));
  }

  lemma SignedValue(v: int, u: u64, q: int)
    requires Int64(v) && v == u + q * 0x1_0000_0000_0000_0000
    ensures ToInt64(u) == v
  {
  }

  /** What a local header says, if its extra field was made for `t`, encrypted or not. */
  lemma LocalConf(t: Snap, h: LocalHeader)
    requires Bounded(t) && h.extra == LocalExtra(t)
    ensures ConfOfLocal(h).hasZip64 <==> Big(t)
    ensures (ConfOfLocal(h).usize, ConfOfLocal(h).csize) == ReadSizes(t, h.usize, h.csize)
    ensures ConfOfLocal(h).scheme == if t.config.encryption == Aes256 then t.config.scheme else h.scheme
  {
    var e := SharedOfLocal(h);
    var aes := if t.config.encryption == Aes256 then EncodeAes(t.config.scheme) else [];
    if Big(t) {
      LocalZip64Seen(t.usize, t.csize, aes, InitialConf(e), e);
      Zip64Sizes(t, InitialConf(e), e);
      AesOnly(t, Zip64Values(InitialConf(e).(hasZip64 := true), LE(8, t.usize) + LE(8, t.csize), e), e);
    } else {
      assert [] + aes == aes;
      AesOnly(t, InitialConf(e), e);
    }
  }

  lemma Zip64Sizes(t: Snap, x: Conf, e: Shared)
    requires Bounded(t) && Big(t) && e.offset == 0 && x.usize == e.usize && x.csize == e.csize
    ensures var c := Zip64Values(x.(hasZip64 := true), LE(8, t.usize) + LE(8, t.csize), e);
            c.hasZip64 && c.scheme == x.scheme && (c.usize, c.csize) == ReadSizes(t, e.usize, e.csize)
  {
    var data := LE(8, t.usize) + LE(8, t.csize);
    assert data[0..8] == LE(8, t.usize) && data[8..16] == LE(8, t.csize);
    Int64Read(t.csize);
    Int64Read(t.usize);
  }

  lemma AesOnly(t: Snap, x: Conf, e: Shared)
    ensures var c := ScanFrom(if t.config.encryption == Aes256 then EncodeAes(t.config.scheme) else [], x, e);
            && (c.usize, c.csize, c.hasZip64) == (x.usize, x.csize, x.hasZip64)
            && c.scheme == if t.config.encryption == Aes256 then t.config.scheme else x.scheme
  {
    if t.config.encryption == Aes256 {
      var b := EncodeAes(t.config.scheme);
      AesBlock(t.config.scheme);
      FirstBlock(AES_TAG, b, []);
      assert b + [] == b;
      SubSlice(b, 4, 11, 5, 7);
      assert b[4..BlockLen(b)] == b[4..11];
    }
  }

  /** The sizes that the local header made for `s` shows: the true ones within the 32-bit limits, the
      limit for a size that is not known. */
  function SizesShown(s: Snap): (int, int) {
    ReadSizes(s, Clamp(s.usize), Clamp(s.csize))
  }

  lemma LocalSizes(s: Snap)
    requires Bounded(s)
    ensures (ConfOfLocal(LocalOf(s)).usize, ConfOfLocal(LocalOf(s)).csize) == SizesShown(s)
    ensures WithinLimits(s) ==> SizesShown(s) == (s.usize, s.csize)
    ensures 0 <= s.usize && 0 <= s.csize ==>
              && SizesShown(s).0 == s.usize
                 && (SizesShown(s).1 == s.csize <==> s.csize <= MAX_UINT32 || s.usize >= MAX_UINT32)
    ensures s.usize == SIZE_UNKNOWN && s.csize <= MAX_UINT32 ==> SizesShown(s).0 == MAX_UINT32
  {
    LocalConf(s, LocalOf(s));
  }

  // ---------------------------------------------------------------- which entries of a sequential run can be skipped

  predicate IsStreamed(f: W.File, isSeeker: bool) {
    !f.snap.isDir && W.Streams(f, isSeeker)
  }

  /** The snapshot for which the local header of an entry was made. */
  function HeaderSnap(f: W.File, isSeeker: bool, r: W.Record): Snap {
    if IsStreamed(f, isSeeker) then W.StreamSnap(W.Prepared(f).(offset := r.snap.offset), isSeeker) else r.snap
  }

  lemma LocalIs(f: W.File, isSeeker: bool, pipe: W.Pipeline, r: W.Record)
    requires W.Written(f, isSeeker, pipe, r)
    ensures var t := HeaderSnap(f, isSeeker, r);
            && r.local == (if IsStreamed(f, isSeeker) && isSeeker then W.Patched(LocalOf(t), r.snap) else LocalOf(t))
            && r.descriptor ==
               (if IsStreamed(f, isSeeker) && !isSeeker
                then W.EncodeDescriptor(r.snap.crc, r.snap.csize, r.snap.usize) else [])
            && t.config == W.Prepared(f).config && r.local.extra == LocalExtra(t)
    ensures Flagged(r.local) <==> DescriptorFlag(f, isSeeker)
    ensures Bit(r.local.flags, UTF8)
  {
    var t := HeaderSnap(f, isSeeker, r);
    var p := W.Prepared(f).(offset := r.snap.offset);
    W.EncodeMeaning(p, f.source, pipe);
    FlagBits(t);
    SetBitExactly(p.flags, DESCRIPTOR, DESCRIPTOR);
  }

  /** The local header of an entry is made before its data is encoded, unless a temporary file is used,
      and the central header afterwards.  Name, time and date always agree; CRC and sizes if no
      descriptor follows; the flags if it was known whether the entry is empty; and the method exactly
      unless a compressed entry of unknown size has turned out to be empty. */
  lemma HeadersOfRecord(f: W.File, isSeeker: bool, pipe: W.Pipeline, r: W.Record, at: nat)
    requires W.Written(f, isSeeker, pipe, r) && W.RecordOk(r, at)
    ensures var (l, c) := (r.local, r.central);
            && (l.name, l.nameLen, l.time, l.date) == (c.name, c.nameLen, c.time, c.date)
            && (r.descriptor == [] ==> (l.crc, l.csize, l.usize) == (c.crc, c.csize, c.usize))
            && ((f.snap.usize == 0 <==> r.snap.usize == 0) ==> l.flags == c.flags)
            && (l.scheme == c.scheme <==>
                !(IsStreamed(f, isSeeker) && f.snap.usize != 0 && r.snap.usize == 0 && f.snap.config.scheme != STORE))
  {
    LocalIs(f, isSeeker, pipe, r);
    if IsStreamed(f, isSeeker) {
      StreamedHeaders(f, isSeeker, pipe, r);
    }
  }

  lemma StreamedHeaders(f: W.File, isSeeker: bool, pipe: W.Pipeline, r: W.Record)
    requires W.Written(f, isSeeker, pipe, r) && IsStreamed(f, isSeeker)
    ensures var (l, c) := (LocalOf(HeaderSnap(f, isSeeker, r)), LocalOf(r.snap));
            && (l.name, l.nameLen, l.time, l.date) == (c.name, c.nameLen, c.time, c.date)
            && ((f.snap.usize == 0 <==> r.snap.usize == 0) ==> l.flags == c.flags)
            && (l.scheme == c.scheme <==> !(f.snap.usize != 0 && r.snap.usize == 0 && f.snap.config.scheme != STORE))
            && (isSeeker ==> ToU32(r.snap.csize) == Clamp(r.snap.csize) && ToU32(r.snap.usize) == Clamp(r.snap.usize))
            && (!isSeeker ==> r.descriptor != [])
  {
    var t := HeaderSnap(f, isSeeker, r);
    W.EncodeMeaning(t, f.source, pipe);
    assert r.snap == t.(usize := r.snap.usize, csize := r.snap.csize, crc := r.snap.crc);
    assert t.usize == f.snap.usize && t.config == W.Prepared(f).config;
    assert !isSeeker ==> |r.descriptor| >= 16;
  }

  /** The first signature stands where, with the descriptor behind it, the record ends. */
  predicate EndsAtSignature(r: W.Record, zip64: bool) {
    var f := First(Section(r), DescriptorSig(), 0);
    f.Some? && f.value + (if zip64 then 24 else 16) == |Section(r)|
  }

  lemma FlaggedSkipIff(r: W.Record)
    requires Flagged(r.local)
    ensures SkipsExactly(r) <==> EndsAtSignature(r, ConfOfLocal(r.local).hasZip64)
  {
    SkipsExactlyIff(r);
    SignatureThere(Section(r), DescriptorSig());
  }

  lemma SignatureThere(s: bytes, sig: bytes)
    ensures var f := First(s, sig, 0); f.Some? ==> f.value + |sig| <= |s| && s[f.value..][..|sig|] == sig
  {
    var f := First(s, sig, 0);
    if f.Some? {
      assert s[f.value..][..|sig|] == s[f.value..f.value + |sig|];
    }
  }

  /** The two sizes that the local header of a record shows. */
  function Shown(f: W.File, isSeeker: bool, r: W.Record): (int, int) {
    var t := HeaderSnap(f, isSeeker, r);
    if IsStreamed(f, isSeeker) && isSeeker then ReadSizes(t, ToU32(r.snap.usize), ToU32(r.snap.csize))
       else SizesShown(t)
  }

  /** A descriptor is flagged: for entries written that way, and if the flag is left from an earlier
      reading. */
  predicate DescriptorFlag(f: W.File, isSeeker: bool) {
    (IsStreamed(f, isSeeker) && !isSeeker) || Bit(f.snap.flags, DESCRIPTOR)
  }

  /** The exact condition for each way of writing: an entry flagged for a descriptor has to end at the
      first signature, with the width its header shows; any other has to show the length of its data. */
  predicate SkipOk(f: W.File, isSeeker: bool, r: W.Record) {
    if DescriptorFlag(f, isSeeker) then EndsAtSignature(r, Big(HeaderSnap(f, isSeeker, r)))
    else if Shown(f, isSeeker, r).1 <= 0 then r.payload == []
    else Shown(f, isSeeker, r).1 == |r.payload|
  }

  lemma ShownIs(f: W.File, isSeeker: bool, pipe: W.Pipeline, r: W.Record)
    requires W.Written(f, isSeeker, pipe, r) && Bounded(HeaderSnap(f, isSeeker, r))
    ensures (ConfOfLocal(r.local).usize, ConfOfLocal(r.local).csize) == Shown(f, isSeeker, r)
    ensures ConfOfLocal(r.local).hasZip64 <==> Big(HeaderSnap(f, isSeeker, r))
  {
    var t := HeaderSnap(f, isSeeker, r);
    LocalIs(f, isSeeker, pipe, r);
    LocalConf(t, r.local);
  }

  lemma SequentialSkipIff(f: W.File, isSeeker: bool, pipe: W.Pipeline, r: W.Record)
    requires W.Written(f, isSeeker, pipe, r) && Bounded(HeaderSnap(f, isSeeker, r))
    ensures SkipsExactly(r) <==> SkipOk(f, isSeeker, r)
  {
    LocalIs(f, isSeeker, pipe, r);
    ShownIs(f, isSeeker, pipe, r);
    if Flagged(r.local) {
      FlaggedSkipIff(r);
    } else {
      SkipsExactlyIff(r);
      W.NoDescriptor([], r.payload);
      assert Section(r) == r.payload;
    }
  }

  /** Within the 32-bit limits an entry without a descriptor, not flagged for one from an earlier
      reading, can always be skipped, but for one case: its header was made for a stale compressed size
      above the limit, and patched with exactly the limit. */
  lemma WithoutDescriptorIff(f: W.File, isSeeker: bool, pipe: W.Pipeline, r: W.Record)
    requires W.Written(f, isSeeker, pipe, r) && W.CountsRight(f, isSeeker) && (f.snap.isDir ==> f.snap.csize == 0)
    requires WithinLimits(r.snap) && Bounded(HeaderSnap(f, isSeeker, r)) && !(IsStreamed(f, isSeeker) && !isSeeker)
             && !Bit(f.snap.flags, DESCRIPTOR)
    ensures SkipsExactly(r) <==>
              !(IsStreamed(f, isSeeker) && r.snap.csize == MAX_UINT32 && HeaderSnap(f, isSeeker, r).csize > MAX_UINT32)
  {
    SizeIsLength(f, isSeeker, pipe, r);
    SequentialSkipIff(f, isSeeker, pipe, r);
    if IsStreamed(f, isSeeker) {
      PatchedShown(f, pipe, r);
    } else {
      PlainShown(f, isSeeker, r);
    }
  }

  lemma PlainShown(f: W.File, isSeeker: bool, r: W.Record)
    requires !IsStreamed(f, isSeeker) && WithinLimits(r.snap)
    ensures Shown(f, isSeeker, r).1 == r.snap.csize && HeaderSnap(f, isSeeker, r) == r.snap
  {
    LocalSizes(r.snap);
  }

  lemma PatchedShown(f: W.File, pipe: W.Pipeline, r: W.Record)
    requires W.Written(f, true, pipe, r) && IsStreamed(f, true) && WithinLimits(r.snap)
    ensures Shown(f, true, r).1 == r.snap.csize <==>
            !(r.snap.csize == MAX_UINT32 && HeaderSnap(f, true, r).csize > MAX_UINT32)
    ensures Shown(f, true, r).1 >= 0
  {
    PatchedKnown(f, pipe, r);
  }

  lemma SizeIsLength(f: W.File, isSeeker: bool, pipe: W.Pipeline, r: W.Record)
    requires W.Written(f, isSeeker, pipe, r) && W.CountsRight(f, isSeeker) && (f.snap.isDir ==> f.snap.csize == 0)
    ensures r.snap.csize == |r.payload|
  {
    W.WrittenOk(f, isSeeker, pipe, r.snap, r.local, r.payload, r.descriptor);
  }

  /** A patched entry had a known size, and it was right. */
  lemma PatchedKnown(f: W.File, pipe: W.Pipeline, r: W.Record)
    requires W.Written(f, true, pipe, r) && IsStreamed(f, true)
    ensures HeaderSnap(f, true, r).usize == r.snap.usize <= MAX_UINT32 && r.snap.csize <= MAX_UINT32
  {
  }

  /** A streamed entry whose data does not contain the signature can be skipped exactly if its declared
      sizes exceed the limit just when its real sizes do. */
  lemma StreamedSkipsIff(f: W.File, pipe: W.Pipeline, r: W.Record)
    requires W.Written(f, false, pipe, r) && IsStreamed(f, false) && Bounded(f.snap)
    requires First(Section(r), DescriptorSig(), 0) == Some(|r.payload|)
    ensures SkipsExactly(r) <==> (Big(HeaderSnap(f, false, r)) <==> Big(r.snap))
  {
    LocalIs(f, false, pipe, r);
    DescriptorShape(r.snap.crc, r.snap.csize, r.snap.usize);
    SequentialSkipIff(f, false, pipe, r);
  }

  lemma DescriptorShape(crc: u32, csize: int, usize: int)
    ensures var d := W.EncodeDescriptor(crc, csize, usize);
            |d| == (if csize > MAX_UINT32 || usize > MAX_UINT32 then 24 else 16) && d[..4] == DescriptorSig()
  {
  }

  /** The same for the parallel path, where no entry has a descriptor. */
  lemma ParallelSkipIff(w: W.File, pipe: W.Pipeline, r: W.Record)
    requires WrittenInParallel(w, pipe, r) && Bounded(r.snap)
    ensures SkipsExactly(r) <==> ParallelSkipOk(w, r)
  {
    ParallelLocal(w, pipe, r);
    if Flagged(r.local) {
      FlaggedSkipIff(r);
    } else {
      SkipsExactlyIff(r);
      assert Section(r) == r.payload;
    }
  }

  predicate ParallelSkipOk(w: W.File, r: W.Record) {
    if Bit(w.snap.flags, DESCRIPTOR) then EndsAtSignature(r, Big(r.snap))
    else if SizesShown(r.snap).1 <= 0 then r.payload == []
    else SizesShown(r.snap).1 == |r.payload|
  }

  lemma ParallelLocal(w: W.File, pipe: W.Pipeline, r: W.Record)
    requires WrittenInParallel(w, pipe, r) && Bounded(r.snap)
    ensures (ConfOfLocal(r.local).usize, ConfOfLocal(r.local).csize) == SizesShown(r.snap)
    ensures ConfOfLocal(r.local).hasZip64 <==> Big(r.snap)
    ensures (Flagged(r.local) <==> Bit(w.snap.flags, DESCRIPTOR)) && Bit(r.local.flags, UTF8)
  {
    W.EncodeMeaning(W.Prepared(w), w.source, pipe);
    FlagBits(r.snap);
    LocalConf(r.snap, r.local);
    LocalSizes(r.snap);
  }

  /** Within the limits, and not flagged from an earlier reading, an entry of a parallel run can be
      skipped exactly if its recorded size is right. */
  lemma ParallelSkipWithin(w: W.File, pipe: W.Pipeline, r: W.Record)
    requires WrittenInParallel(w, pipe, r) && WithinLimits(r.snap) && !Bit(w.snap.flags, DESCRIPTOR)
    ensures SkipsExactly(r) <==> W.ParallelCountsRight(w, pipe)
  {
    ParallelLength(w, pipe, r);
    ParallelSkipIff(w, pipe, r);
    LocalSizes(r.snap);
  }

  lemma ParallelLength(w: W.File, pipe: W.Pipeline, r: W.Record)
    requires WrittenInParallel(w, pipe, r)
    ensures r.snap.csize == |r.payload| <==> W.ParallelCountsRight(w, pipe)
  {
    W.ParallelSizeIff(w, pipe);
  }

  // ---------------------------------------------------------------- which entries can be opened

  /** The exact condition for a stored entry that is opened: the uncompressed size its header shows is
      the length of its data; a descriptor, if it is flagged, has to have the width the header shows, and
      is looked for only if that size is zero. */
  predicate OpenOk(f: W.File, isSeeker: bool, r: W.Record) {
    var (n, s, zip64) := (Shown(f, isSeeker, r).0, Section(r), Big(HeaderSnap(f, isSeeker, r)));
    if !DescriptorFlag(f, isSeeker) then (if n <= 0 then s == [] else n == |s|)
    else if n == 0 then EndsAtSignature(r, zip64)
    else EndBehind(s, n, r.local) == Some(|s|)
  }

  lemma SequentialOpenIff(f: W.File, isSeeker: bool, pipe: W.Pipeline, r: W.Record)
    requires W.Written(f, isSeeker, pipe, r) && Bounded(HeaderSnap(f, isSeeker, r))
    ensures OpensExactly(r) <==> OpenOk(f, isSeeker, r)
  {
    LocalIs(f, isSeeker, pipe, r);
    ShownIs(f, isSeeker, pipe, r);
    OpenEndIff(r);
  }

  lemma OpenEndIff(r: W.Record)
    ensures var (n, s) := (ConfOfLocal(r.local).usize, Section(r));
            OpensExactly(r) <==>
              if !Flagged(r.local) then (if n <= 0 then s == [] else n == |s|)
              else if n == 0 then EndsAtSignature(r, ConfOfLocal(r.local).hasZip64)
              else EndBehind(s, n, r.local) == Some(|s|)
  {
    OpensExactlyIff(r);
    if Flagged(r.local) {
      UntilSignatureEnd(r);
    }
  }

  predicate ParallelOpenOk(w: W.File, r: W.Record) {
    var (n, s) := (SizesShown(r.snap).0, Section(r));
    if !Bit(w.snap.flags, DESCRIPTOR) then (if n <= 0 then s == [] else n == |s|)
    else if n == 0 then EndsAtSignature(r, Big(r.snap))
    else EndBehind(s, n, r.local) == Some(|s|)
  }

  lemma ParallelOpenIff(w: W.File, pipe: W.Pipeline, r: W.Record)
    requires WrittenInParallel(w, pipe, r) && Bounded(r.snap)
    ensures OpensExactly(r) <==> ParallelOpenOk(w, r)
  {
    ParallelLocal(w, pipe, r);
    OpenEndIff(r);
  }

  lemma UntilSignatureEnd(r: W.Record)
    requires Flagged(r.local)
    ensures SkipEnd(r) == Some(|Section(r)|) <==> EndsAtSignature(r, ConfOfLocal(r.local).hasZip64)
  {
    SkipsExactlyIff(r);
    FlaggedSkipIff(r);
  }

  /** A stored entry of known size can always be opened, also if its data contains the signature. */
  lemma KnownSizeOpens(f: W.File, pipe: W.Pipeline, r: W.Record)
    requires W.Written(f, false, pipe, r) && IsStreamed(f, false) && W.Prepared(f).config.scheme == STORE
    requires 0 <= f.snap.usize == r.snap.usize == r.snap.csize == |r.payload| && Bounded(r.snap)
    ensures OpensExactly(r) && GivesPayload(r)
  {
    LocalIs(f, false, pipe, r);
    KnownShown(f, pipe, r);
    DescriptorShape(r.snap.crc, r.snap.csize, r.snap.usize);
    SequentialOpenIff(f, false, pipe, r);
    ShownIs(f, false, pipe, r);
    DescriptorBehind(r);
    OpensExactlyIff(r);
    GivesPayloadIff(r);
  }

  lemma KnownShown(f: W.File, pipe: W.Pipeline, r: W.Record)
    requires W.Written(f, false, pipe, r) && IsStreamed(f, false) && W.Prepared(f).config.scheme == STORE
    requires 0 <= f.snap.usize == r.snap.usize == r.snap.csize && Bounded(r.snap)
    ensures Shown(f, false, r).0 == r.snap.usize && (Big(HeaderSnap(f, false, r)) <==> Big(r.snap))
            && Bounded(HeaderSnap(f, false, r))
  {
    var t := HeaderSnap(f, false, r);
    assert t.usize == t.csize == f.snap.usize;
    LocalSizes(t);
  }

  lemma DescriptorBehind(r: W.Record)
    requires Flagged(r.local) && |r.descriptor| >= 4 && r.descriptor[..4] == DescriptorSig()
    requires |r.descriptor| == if ConfOfLocal(r.local).hasZip64 then 24 else 16
    ensures EndBehind(Section(r), |r.payload|, r.local) == Some(|Section(r)|)
    ensures r.payload == [] ==>
            EndsAtSignature(r, ConfOfLocal(r.local).hasZip64) && First(Section(r), DescriptorSig(), 0) == Some(0)
  {
    var s := Section(r);
    assert s[|r.payload|..] == r.descriptor;
    if r.payload == [] {
      assert s[0..4] == r.descriptor[..4];
      assert SigAt(s, DescriptorSig(), 0);
    }
  }

  /** One whose size was not known when its header was made can only be opened if its data is about as
      long as the limit: the reader takes everything that follows. */
  lemma UnknownSizeNeverOpens(f: W.File, pipe: W.Pipeline, r: W.Record)
    requires W.Written(f, false, pipe, r) && IsStreamed(f, false) && W.Prepared(f).config.scheme == STORE
    requires f.snap.usize == SIZE_UNKNOWN && |Section(r)| < MAX_UINT32 + 4
    ensures !OpensExactly(r)
    ensures forall rest: bytes :: |Section(r) + rest| <= MAX_UINT32 ==>
              AfterOpened(Section(r) + rest, r.local, Opened(RawOf(r.local), false)) == None
  {
    var s := Section(r);
    SequentialOpenIff(f, false, pipe, r);
    LocalIs(f, false, pipe, r);
    ShownIs(f, false, pipe, r);
    forall rest: bytes | |s + rest| <= MAX_UINT32
      ensures AfterOpened(s + rest, r.local, Opened(RawOf(r.local), false)) == None
    {
      TakesAll(s + rest, r.local);
    }
  }

  lemma TakesAll(s: bytes, h: LocalHeader)
    requires Flagged(h) && ConfOfLocal(h).usize == MAX_UINT32 && |s| <= MAX_UINT32
    ensures AfterOpened(s, h, Opened(RawOf(h), false)) == None
  {
    assert s[|s|..] == [];
  }

  /** An encrypted stored entry has more data than its uncompressed size says, and the reader takes the
      one for the other: it stops early, and what the encryption has added stays in the stream. */
  lemma EncryptedNeverOpens(f: W.File, isSeeker: bool, pipe: W.Pipeline, r: W.Record, rest: bytes)
    requires W.Written(f, isSeeker, pipe, r) && !f.snap.isDir && f.source.Content? && !Bit(f.snap.flags, DESCRIPTOR)
    requires W.Prepared(f).config.scheme == STORE && W.Prepared(f).config.encryption != NotEncrypted
    requires |r.payload| > |f.source.data| && WithinLimits(r.snap)
    ensures !OpensExactly(r)
    ensures AfterOpened(Section(r) + rest, r.local, Opened(RawOf(r.local), false)) ==
            Some(r.payload[|f.source.data|..] + rest)
  {
    assert !IsStreamed(f, isSeeker);
    EncryptedShown(f, isSeeker, pipe, r);
    LocalIs(f, isSeeker, pipe, r);
    ShownIs(f, isSeeker, pipe, r);
    PartlyRead(r, |f.source.data|, rest);
  }

  lemma PartlyRead(r: W.Record, n: nat, rest: bytes)
    requires !Flagged(r.local) && ConfOfLocal(r.local).usize == n < |r.payload| && r.descriptor == []
    ensures !OpensExactly(r)
    ensures AfterOpened(Section(r) + rest, r.local, Opened(RawOf(r.local), false)) == Some(r.payload[n..] + rest)
  {
    var o := Opened(Limited(n), false);
    assert RawOf(r.local) == Limited(n);
    W.NoTail(r.payload);
    SuffixOf(r.payload, rest, n);
    assert DataLength(o, r.payload + rest) == n;
    OpensExactlyIff(r);
  }

  lemma SuffixOf(a: bytes, b: bytes, n: nat)
    requires n <= |a|
    ensures (a + b)[n..] == a[n..] + b
  {
  }

  lemma EncryptedShown(f: W.File, isSeeker: bool, pipe: W.Pipeline, r: W.Record)
    requires W.Written(f, isSeeker, pipe, r) && !IsStreamed(f, isSeeker) && !f.snap.isDir && f.source.Content?
             && WithinLimits(r.snap)
    ensures Shown(f, isSeeker, r).0 == r.snap.usize == |f.source.data| && HeaderSnap(f, isSeeker, r) == r.snap
  {
    W.EncodeMeaning(W.Prepared(f).(offset := r.snap.offset), f.source, pipe);
    LocalSizes(r.snap);
  }

  /** After `OpenRaw` alone, without a descriptor, `Next` skips the wrong number of bytes in the same
      cases. */
  lemma RawOpenedSkipIff(r: W.Record)
    requires !Flagged(r.local) && ConfOfLocal(r.local).usize >= 0 && ConfOfLocal(r.local).scheme == STORE
    ensures (forall rest: bytes ::
               After(State(Some(RawOpened(Current(r.local, ConfOfLocal(r.local).csize, None))), Section(r) + rest)) ==
                 Some(rest))
       <==> ConfOfLocal(r.local).usize == |Section(r)|
  {
    var (s, n) := (Section(r), ConfOfLocal(r.local).usize);
    var c := RawOpened(Current(r.local, ConfOfLocal(r.local).csize, None));
    if n == |s| {
      forall rest: bytes
        ensures After(State(Some(c), s + rest)) == Some(rest)
      {
        assert (s + rest)[|s|..] == rest;
      }
    } else {
      assert s + [] == s;
      assert After(State(Some(c), s + [])) != Some([]);
    }
  }

  // ---------------------------------------------------------------- what an opened entry gives

  /** The bytes read from the entry are its data, whatever follows it. */
  ghost predicate GivesPayload(r: W.Record) {
    forall rest: bytes :: DataOf(r, rest) == r.payload
  }

  function DataOf(r: W.Record, rest: bytes): bytes {
    (Section(r) + rest)[..DataLength(Opened(RawOf(r.local), false), Section(r) + rest)]
  }

  /** Where the data that is read ends. */
  function GivenEnd(r: W.Record): nat {
    var (n, f) := (ConfOfLocal(r.local).usize, First(Section(r), DescriptorSig(), 0));
    if RawOf(r.local).UntilSignature? then (if f.Some? then f.value else 0) else if n <= 0 then 0 else n
  }

  /** An entry that ends with its record when it is read gives its data exactly if that ends there, too. */
  lemma GivesPayloadIff(r: W.Record)
    requires OpenEnd(r) == Some(|Section(r)|)
    ensures GivesPayload(r) <==> GivenEnd(r) == |r.payload|
  {
    var (s, k) := (Section(r), GivenEnd(r));
    assert k <= |s|;
    forall rest: bytes
      ensures DataOf(r, rest) == s[..k]
    {
      if RawOf(r.local).UntilSignature? {
        FirstInFront(s, DescriptorSig(), rest);
      }
      assert (s + rest)[..k] == s[..k];
    }
    if k != |r.payload| {
      assert |DataOf(r, [])| != |r.payload|;
    }
  }

  /** The descriptor reads back. */
  lemma DescriptorReads(crc: u32, csize: int, usize: int, rest: bytes)
    requires 0 <= csize < 0x8000_0000_0000_0000 && 0 <= usize < 0x8000_0000_0000_0000
    ensures DescriptorAt(W.EncodeDescriptor(crc, csize, usize) + rest, csize > MAX_UINT32 || usize > MAX_UINT32)
         == Some(Descriptor(crc, csize, usize))
  {
    var s := W.EncodeDescriptor(crc, csize, usize) + rest;
    var w := if csize > MAX_UINT32 || usize > MAX_UINT32 then 8 else 4;
    FourParts(DescriptorSig(), LE(4, crc), LE(w, csize), LE(w, usize), rest);
    assert s[0..4] == s[..4];
    ReadWritten4(crc);
    if w == 8 {
      Int64Read(csize);
      Int64Read(usize);
    } else {
      ReadWritten4(csize);
      ReadWritten4(usize);
    }
  }

  lemma FourParts(a: bytes, b: bytes, c: bytes, d: bytes, rest: bytes)
    ensures var s := a + b + c + d + rest;
            && s[0..|a|] == a && s[|a|..|a| + |b|] == b && s[|a| + |b|..|a| + |b| + |c|] == c
            && s[|a| + |b| + |c|..|a| + |b| + |c| + |d|] == d
  {
  }

  /** What the end of a streamed stored entry reports when its data and its descriptor are found: nothing,
      if and only if the data has the recorded checksum and size; a wrong checksum before a wrong size. */
  lemma VerdictIff(f: W.File, pipe: W.Pipeline, r: W.Record, rest: bytes, crc: bytes -> u32)
    requires W.Written(f, false, pipe, r) && IsStreamed(f, false) && W.Prepared(f).config.scheme == STORE
    requires GivenEnd(r) == |r.payload| && (Big(HeaderSnap(f, false, r)) <==> Big(r.snap))
             && Bounded(HeaderSnap(f, false, r))
    requires OpenEnd(r) == Some(|Section(r)|) && Bounded(r.snap) && r.snap.usize >= 0 && r.snap.csize >= 0
    ensures var c := OpenedEntry(Current(r.local, ConfOfLocal(r.local).csize, None));
            var v := Verdict(c, Section(r) + rest, [], crc, false);
            && (v == None <==> crc(r.payload) == r.snap.crc && |r.payload| == r.snap.usize)
            && (v == Some(BadChecksum) <==> crc(r.payload) != r.snap.crc)
  {
    StoredLocally(f, pipe, r);
    GivesPayloadIff(r);
    assert DataOf(r, rest) == r.payload;
    DescriptorReads(r.snap.crc, r.snap.csize, r.snap.usize, rest);
    VerdictOf(r, rest, crc);
    JudgeIff(Descriptor(r.snap.crc, r.snap.csize, r.snap.usize),
             DescriptorAt(r.descriptor + rest, ConfOfLocal(r.local).hasZip64),
             crc(r.payload), |r.payload|);
  }

  lemma JudgeIff(d: Descriptor, read: Option<Descriptor>, crc: u32, size: nat)
    requires read == Some(d) && 0 <= d.usize < 0x8000_0000_0000_0000
    ensures Judge(read, crc, size, false) == None <==> crc == d.crc && size == d.usize
    ensures Judge(read, crc, size, false) == Some(BadChecksum) <==> crc != d.crc
  {
  }

  lemma VerdictOf(r: W.Record, rest: bytes, crc: bytes -> u32)
    requires Flagged(r.local) && ConfOfLocal(r.local).scheme == STORE && DataOf(r, rest) == r.payload
    ensures Verdict(OpenedEntry(Current(r.local, ConfOfLocal(r.local).csize, None)), Section(r) + rest, [], crc, false)
         == Judge(DescriptorAt(r.descriptor + rest, ConfOfLocal(r.local).hasZip64), crc(r.payload), |r.payload|, false)
  {
    var s := Section(r) + rest;
    assert s[|r.payload|..] == r.descriptor + rest;
    assert [] + r.payload == r.payload;
  }

  lemma StoredLocally(f: W.File, pipe: W.Pipeline, r: W.Record)
    requires W.Written(f, false, pipe, r) && IsStreamed(f, false) && W.Prepared(f).config.scheme == STORE
    requires Bounded(HeaderSnap(f, false, r)) && (Big(HeaderSnap(f, false, r)) <==> Big(r.snap))
    ensures ConfOfLocal(r.local).scheme == STORE && Flagged(r.local) && (ConfOfLocal(r.local).hasZip64 <==> Big(r.snap))
    ensures r.descriptor == W.EncodeDescriptor(r.snap.crc, r.snap.csize, r.snap.usize)
  {
    LocalIs(f, false, pipe, r);
    LocalConf(HeaderSnap(f, false, r), r.local);
  }
}
