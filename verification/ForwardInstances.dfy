/** Archives written out in full, read from front to back: a single file, and one that hides behind a
    file that cannot be read. */
module ForwardInstances {
  import opened Wrappers
  import opened Bytes
  import opened Headers
  import opened ExtraField
  import opened EndRecords
  import opened Snapshot
  import opened SignatureReader
  import opened Stream
  import opened Archive
  import opened StreamArchive
  import opened ForwardRead
  import opened Instances
  import W = Writer
  import L = Layouts

  // ---------------------------------------------------------------- a single file

  /** What reading needs to know of the record of a small stored file. */
  ghost predicate SmallRecord(f: W.File, r: W.Record, size: nat) {
    && W.Written(f, false, StoringPipeline(), r) && IsStreamed(f, false)
    && W.Prepared(f).config == Config(STORE, 0, NotEncrypted, []) && W.Prepared(f).flags == 0
    && f.snap.usize == r.snap.usize == r.snap.csize == |r.payload| == size <= MAX_UINT32
    && Bounded(HeaderSnap(f, false, r)) && (Big(HeaderSnap(f, false, r)) <==> Big(r.snap)) && Bounded(f.snap)
  }

  lemma SmallRecordOk(name: bytes, data: bytes, offset: nat)
    requires |name| <= MAX_STRING_LENGTH && |data| <= MAX_UINT32
    ensures SmallRecord(StoredFile(name, data), StoredRecord(name, data, offset), |data|)
  {
    StoredRecordOk(name, data, offset);
    StoredSnap(name, data, offset);
  }

  lemma SmallOpens(f: W.File, r: W.Record, size: nat)
    requires SmallRecord(f, r, size)
    ensures Exactly(r, Open)
    ensures First(Section(r), DescriptorSig(), 0) == Some(size) ==> Exactly(r, Skip)
  {
    KnownSizeOpens(f, StoringPipeline(), r);
    SmallIsPlain(f, r, size);
    if First(Section(r), DescriptorSig(), 0) == Some(size) {
      StreamedSkipsIff(f, StoringPipeline(), r);
    }
  }

  lemma SmallIsPlain(f: W.File, r: W.Record, size: nat)
    requires SmallRecord(f, r, size)
    ensures Plain(r.local)
  {
    var t := HeaderSnap(f, false, r);
    LocalIs(f, false, StoringPipeline(), r);
    LocalConf(t, r.local);
    FlagBits(t);
    SetBitExactly(W.Prepared(f).flags, DESCRIPTOR, ENCRYPTED);
    assert !Bit(W.Prepared(f).flags, ENCRYPTED);
  }

  /** A single small file of any contents, opened and read: forward reading gives its name and its data,
      and then the end, as the directory says.  It can also be skipped unless its data contains the
      signature of a descriptor. */
  lemma SingleForward(name: bytes, data: bytes, decode: bytes -> bytes)
    requires |name| <= MAX_STRING_LENGTH && 46 + |name| + |data| < MAX_UINT32 && !EndsInSlash(name)
    ensures ReadsForward([StoredRecord(name, data, 0)], [], [Open], decode)
    ensures First(Section(StoredRecord(name, data, 0)), DescriptorSig(), 0) == Some(|data|) ==>
              ReadsForward([StoredRecord(name, data, 0)], [], [Skip], decode)
  {
    var (f, r) := (StoredFile(name, data), StoredRecord(name, data, 0));
    SmallRecordOk(name, data, 0);
    StoredRecordOk(name, data, 0);
    SmallOpens(f, r, |data|);
    ForwardOf(f, r, name, data, Open, decode);
    if Exactly(r, Skip) {
      ForwardOf(f, r, name, data, Skip, decode);
    }
  }

  lemma ForwardOf(f: W.File, r: W.Record, name: bytes, data: bytes, choice: Choice, decode: bytes -> bytes)
    requires SmallRecord(f, r, |data|) && StoredAs(r, name, data, 0) && Exactly(r, choice)
    requires |name| <= MAX_STRING_LENGTH && 46 + |name| + |data| < MAX_UINT32 && !EndsInSlash(name)
    ensures ReadsForward([r], [], [choice], decode)
  {
    SmallLoadable(r, name, data, 0);
    UsableIff(f, false, StoringPipeline(), r, choice);
    OneForward(f, StoringPipeline(), r, choice, decode);
  }

  lemma OneForward(f: W.File, pipe: W.Pipeline, r: W.Record, choice: Choice, decode: bytes -> bytes)
    requires W.Written(f, false, pipe, r) && r.junk == [] && Loadable([r], [], [])
    requires Bounded(HeaderSnap(f, false, r)) && UsableAs(f, false, r, choice)
    ensures ReadsForward([r], [], [choice], decode)
  {
    OneWithoutJunk(r);
    SequentialStream([f], false, pipe, [r], [], [choice], decode);
  }

  lemma OneWithoutJunk(r: W.Record)
    ensures W.NoJunk([r]) <==> r.junk == []
  {
    assert [r][..0] == [];
  }

  /** A small record behind `at` bytes that are its junk. */
  lemma SmallLoadable(r: W.Record, name: bytes, data: bytes, at: nat)
    requires StoredAs(r.(junk := []), name, data, at) && |r.junk| == at
    requires |name| <= MAX_STRING_LENGTH && at + 46 + |name| + |data| < MAX_UINT32 && !EndsInSlash(name)
    ensures Loadable([r], [], [])
  {
    OneRecord(r);
    NoCommentSafe([r]);
    SmallPortable(r, name, data, at);
  }

  lemma OneRecord(r: W.Record)
    ensures W.Local([r]) + [] == r.junk + W.RecordBytes(r) && W.Central([r]) == EncodeCentral(r.central)
    ensures W.LogOk([r]) <==> W.RecordOk(r, 0)
  {
    W.LogAppend([], r);
    assert [] + [r] == [r];
  }

  lemma SmallPortable(r: W.Record, name: bytes, data: bytes, at: nat)
    requires StoredAs(r.(junk := []), name, data, at) && |r.junk| == at
    requires |name| <= MAX_STRING_LENGTH && at + 46 + |name| + |data| < MAX_UINT32 && !EndsInSlash(name)
    ensures Portable(r) && W.RecordOk(r, 0)
    ensures |W.RecordBytes(r)| == 46 + |name| + |data| && |EncodeCentral(r.central)| == 46 + |name|
  {
    assert !NeedsZip64(r.snap) && ExtraOf(r.snap) == [];
    assert W.RecordBytes(r) == W.RecordBytes(r.(junk := []));
  }

  // ---------------------------------------------------------------- a file that hides another one

  /** The first byte of every signature, the letter P. */
  const P: byte := 0x50

  predicate Free(s: bytes) {
    forall i :: 0 <= i < |s| ==> s[i] != P
  }

  lemma FreeSum(a: bytes, b: bytes)
    requires Free(a) && Free(b)
    ensures Free(a + b)
  {
  }

  lemma {:induction false} FreeSmall(n: nat, v: nat)
    requires v < P
    ensures Free(LE(n, v))
  {
    if n > 0 {
      LEStep(n, v);
      FreeSmall(n - 1, v / 256);
    }
  }

  /** A local header with small numbers in all fields, but for the two flags of a streamed entry. */
  predicate SmallHeader(h: LocalHeader) {
    && h.version < P && h.flags == 0x808 && h.scheme < P && h.time < P && h.date < P
    && h.crc < P && h.csize < P && h.usize < P && h.nameLen < P && h.extraLen < P && Free(h.name) && Free(h.extra)
  }

  lemma FreeField(h: LocalHeader, i: nat)
    requires SmallHeader(h) && i > 0
    ensures Free(LocalField(h, i))
  {
    FreeSmall(2, h.version);
    FreeFlags();
    FreeSmall(2, h.scheme);
    FreeSmall(2, h.time);
    FreeSmall(2, h.date);
    FreeSmall(4, h.crc);
    FreeSmall(4, h.csize);
    FreeSmall(4, h.usize);
    FreeSmall(2, h.nameLen);
    FreeSmall(2, h.extraLen);
  }

  lemma FreeFlags()
    ensures Free(LE(2, 0x808))
  {
    LEStep(2, 0x808);
    FreeSmall(1, 8);
  }

  lemma {:induction false} FreePrefix(h: LocalHeader, i: nat) returns (t: bytes)
    requires SmallHeader(h) && i >= 1
    ensures Free(t) && LocalPrefix(h, i) == LE(4, LOCAL_SIGNATURE) + t
  {
    if i == 1 {
      t := [];
    } else {
      var init := FreePrefix(h, i - 1);
      FreeField(h, i - 1);
      FreeSum(init, LocalField(h, i - 1));
      t := init + LocalField(h, i - 1);
    }
  }

  lemma FreeHeader(h: LocalHeader) returns (t: bytes)
    requires SmallHeader(h)
    ensures Free(t) && EncodeLocal(h) == LE(4, LOCAL_SIGNATURE) + t
  {
    var fixed := FreePrefix(h, 11);
    FreeSum(fixed, h.name);
    FreeSum(fixed + h.name, h.extra);
    t := fixed + h.name + h.extra;
    AssociateThree(LE(4, LOCAL_SIGNATURE), fixed, h.name, h.extra);
  }

  /** In front of the descriptor, such a header and data without the letter hold no signature of one. */
  lemma DescriptorFirst(h: LocalHeader, data: bytes, descriptor: bytes)
    requires SmallHeader(h) && Free(data) && |descriptor| >= 4 && descriptor[..4] == DescriptorSig()
    ensures First(EncodeLocal(h) + data + descriptor, DescriptorSig(), 0) == Some(|EncodeLocal(h) + data|)
  {
    var t := FreeHeader(h);
    FreeSum(t, data);
    SignatureDigits();
    BehindHeader(EncodeLocal(h), LE(4, LOCAL_SIGNATURE), t, data, descriptor, DescriptorSig());
  }

  lemma BehindHeader(header: bytes, a: bytes, t: bytes, data: bytes, descriptor: bytes, sig: bytes)
    requires header == a + t && Free(t + data) && |a| == 4 && Free(a[1..]) && |sig| == 4 && sig[0] == P
    requires a[2] != sig[2] && |descriptor| >= 4 && descriptor[..4] == sig
    ensures First(header + data + descriptor, sig, 0) == Some(|header + data|)
  {
    Associate(a, t, data);
    OnlyBehind(a, t + data, descriptor, sig);
  }

  lemma OnlyBehind(a: bytes, u: bytes, descriptor: bytes, sig: bytes)
    requires |a| == 4 && Free(a[1..]) && Free(u) && |sig| == 4 && sig[0] == P && a[2] != sig[2]
    requires |descriptor| >= 4 && descriptor[..4] == sig
    ensures First(a + u + descriptor, sig, 0) == Some(4 + |u|)
  {
    var s := a + u + descriptor;
    assert s[4 + |u|..4 + |u| + 4] == descriptor[..4];
    forall j: nat | j < 4 + |u|
      ensures !SigAt(s, sig, j)
    {
      NotYet(s, a, u, sig, j);
    }
    FirstUnique(s, sig, 4 + |u|);
  }

  lemma NotYet(s: bytes, a: bytes, u: bytes, sig: bytes, j: nat)
    requires |a| == 4 && Free(a[1..]) && Free(u) && |sig| == 4 && sig[0] == P && a[2] != sig[2]
    requires a + u <= s && j < |a + u|
    ensures !SigAt(s, sig, j)
  {
    BytesOfSig(s, sig, j);
    assert s[j] == (a + u)[j] && (0 < j < 4 ==> s[j] == a[1..][j - 1]);
    assert |s| > 2 ==> s[2] == (a + u)[2] == a[2];
  }

  lemma BytesOfSig(s: bytes, sig: bytes, j: nat)
    requires |sig| == 4
    ensures SigAt(s, sig, j) ==> s[j] == sig[0] && s[j + 2] == sig[2]
  {
    if j + 4 <= |s| {
      assert s[j..j + 4][0] == s[j] && s[j..j + 4][2] == s[j + 2];
    }
  }

  lemma SignatureDigits()
    ensures DescriptorSig() == [P, 0x4b, 7, 8] && LE(4, LOCAL_SIGNATURE) == [P, 0x4b, 3, 4]
  {
    L.Signatures();
  }

  /** A file whose source cannot be opened. */
  function UnreadableFile(name: bytes): W.File {
    StoredFile(name, [0]).(source := W.Unreadable)
  }

  lemma UnreadableHeader(name: bytes)
    requires |name| <= MAX_STRING_LENGTH
    ensures var (f, t) := (UnreadableFile(name), HeaderBefore(UnreadableFile(name), false, 0));
            && LeavesHeader(f, false, StoringPipeline()) && IsStreamed(f, false) && Bounded(t) && !Big(t)
            && LocalFits(LocalOf(t)) && |EncodeLocal(LocalOf(t))| == 30 + |name|
            && W.Leftover(f, 0, false, StoringPipeline()) == EncodeLocal(LocalOf(t)) + []
  {
    StoredSnap(name, [0], 0);
    StoredRecordOk(name, [0], 0);
  }

  /** The first file cannot be opened and leaves its header; then the second is written, right behind. */
  function Hidden(failing: bytes, name: bytes, data: bytes): W.Record {
    var left := W.Leftover(UnreadableFile(failing), 0, false, StoringPipeline());
    StoredRecord(name, data, |left|).(junk := left)
  }

  lemma SmallHeaderOk(name: bytes, data: bytes, offset: nat)
    requires Free(name) && |name| < P && |data| < P
    ensures SmallHeader(StoredRecord(name, data, offset).local)
  {
    StoredSnap(name, data, offset);
    var t := W.StreamSnap(StoredFile(name, data).snap.(offset := offset), false);
    SmallFrom(t, name);
  }

  lemma SmallFrom(t: Snap, name: bytes)
    requires Free(name) && |name| < P && t.name == name && !t.isDir && t.usize == t.csize && 0 <= t.usize < P
    requires t.config == Config(STORE, 0, NotEncrypted, []) && t.flags == On(0, DESCRIPTOR)
    requires t.time == t.date == t.crc == 0
    ensures SmallHeader(LocalOf(t))
  {
    SmallSizes(t);
    StreamedFlags(t);
    SmallU16(|name|);
  }

  lemma SmallSizes(t: Snap)
    requires t.usize == t.csize && 0 <= t.usize < P && t.config == Config(STORE, 0, NotEncrypted, [])
    ensures VersionNeeded(t) < P && Clamp(t.usize) == Clamp(t.csize) == t.usize && LocalExtra(t) == []
    ensures StoredScheme(t) == STORE
  {
  }

  /** A flag above the others is added. */
  lemma {:induction false} HighBit(flags: nat, k: nat)
    requires flags < Pow2(k)
    ensures SetBit(flags, k) == flags + Pow2(k)
    decreases k
  {
    if k > 0 {
      HighBit(flags / 2, k - 1);
    }
  }

  lemma StreamedFlags(t: Snap)
    requires t.config == Config(STORE, 0, NotEncrypted, []) && t.flags == On(0, DESCRIPTOR)
    ensures BitFlag(t) == 0x808
  {
    assert Pow2(1) == 2 && Pow2(2) == 4 && Pow2(3) == 8;
    assert Pow2(8) == 256 && Pow2(9) == 512 && Pow2(10) == 1024 && Pow2(11) == 2048;
    HighBit(0, DESCRIPTOR);
    HighBit(8, UTF8);
  }

  /** The bytes of the second file are fit for what hides it. */
  lemma HiddenOk(failing: bytes, name: bytes, data: bytes)
    requires |failing| <= MAX_STRING_LENGTH && Free(name) && Free(data) && |name| < P && |data| < P
    requires !EndsInSlash(name)
    ensures var (g, r) := (StoredFile(name, data), Hidden(failing, name, data));
            SmallRecord(g, r, |data|) && Loadable([r], [], []) && SmallHeader(r.local) && r.payload == data
  {
    var at := 30 + |failing|;
    UnreadableHeader(failing);
    SmallRecordOk(name, data, at);
    StoredRecordOk(name, data, at);
    SmallHeaderOk(name, data, at);
    assert Hidden(failing, name, data).(junk := []) == StoredRecord(name, data, at);
    SmallLoadable(Hidden(failing, name, data), name, data, at);
  }

  /** The directory of this archive lists the second file only, and the forward reader reports the first
      one only. */
  lemma HiddenFile(failing: bytes, name: bytes, data: bytes, decode: bytes -> bytes)
    requires |failing| <= MAX_STRING_LENGTH && Free(name) && Free(data) && |name| < P && |data| < P
    requires !EndsInSlash(name)
    ensures var (r, h) := (Hidden(failing, name, data), LocalOf(HeaderBefore(UnreadableFile(failing), false, 0)));
            && Listing(W.ArchiveBytes([r], [], [])) == Some([r.central]) && FileOf(r.central, decode).name == name
            && Session(Visit, State(None, W.ArchiveBytes([r], [], [])), [Skip])
               == [Item(Entry(h), None), Item(End, None)]
            && FileOfLocal(h, decode).name == WithoutSlash(failing)
  {
    var (f, g, r) := (UnreadableFile(failing), StoredFile(name, data), Hidden(failing, name, data));
    UnreadableHeader(failing);
    HiddenOk(failing, name, data);
    SignatureBehind(g, r, |data|);
    UnreadableHidesNext(f, StoringPipeline(), g, r, [], decode);
  }

  lemma SignatureBehind(g: W.File, r: W.Record, size: nat)
    requires SmallRecord(g, r, size) && SmallHeader(r.local) && Free(r.payload)
    ensures First([] + EncodeLocal(r.local) + r.payload + r.descriptor, DescriptorSig(), 0)
         == Some(|[] + EncodeLocal(r.local) + r.payload|)
  {
    LocalIs(g, false, StoringPipeline(), r);
    DescriptorShape(r.snap.crc, r.snap.csize, r.snap.usize);
    DescriptorFirst(r.local, r.payload, r.descriptor);
    assert [] + EncodeLocal(r.local) == EncodeLocal(r.local);
  }

  /** A run over the two files comes to that record, in its place. */
  lemma HiddenRun(failing: bytes, name: bytes, data: bytes) returns (p: W.Progress, q: W.Progress)
    requires |failing| <= MAX_STRING_LENGTH && Free(name) && Free(data) && |name| < P && |data| < P
    requires !EndsInSlash(name)
    ensures var (f, g, pipe) := (UnreadableFile(failing), StoredFile(name, data), StoringPipeline());
            W.Abandoned(W.Progress([], [], [], 0), p, f, false, pipe) && W.Added(p, q, g, false, pipe)
    ensures q.log == [Hidden(failing, name, data)] && W.InPlace(q) && q.tail == []
  {
    var r := Hidden(failing, name, data);
    UnreadableHeader(failing);
    p := FirstLeft(failing);
    HiddenOk(failing, name, data);
    q := SecondBehind(p, StoredFile(name, data), r, |data|);
  }

  lemma FirstLeft(failing: bytes) returns (p: W.Progress)
    ensures W.Abandoned(W.Progress([], [], [], 0), p, UnreadableFile(failing), false, StoringPipeline())
    ensures var left := W.Leftover(UnreadableFile(failing), 0, false, StoringPipeline());
            p == W.Progress([], left, left, |left|)
  {
    var left := W.Leftover(UnreadableFile(failing), 0, false, StoringPipeline());
    p := W.Progress([], left, left, |left|);
    assert [] + left == left;
    W.AbandonedOk(W.Progress([], [], [], 0), p, UnreadableFile(failing), false, StoringPipeline());
  }

  lemma SecondBehind(p: W.Progress, g: W.File, r: W.Record, size: nat) returns (q: W.Progress)
    requires p == W.Progress([], r.junk, r.junk, |r.junk|) && SmallRecord(g, r, size) && W.RecordOk(r, 0)
    ensures W.Added(p, q, g, false, StoringPipeline()) && q.log == [r] && W.InPlace(q) && q.tail == []
  {
    var bytes := r.junk + W.RecordBytes(r);
    q := W.Progress([r], [], bytes, |bytes|);
    OneRecord(r);
    W.NoTail(W.Local([r]));
    assert W.Local([]) + bytes == bytes;
    W.AddedOk(p, q, g, false, StoringPipeline(), r.snap, r.local, r.payload, r.descriptor);
  }
}
