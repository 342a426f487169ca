/** Archives written out in full: a single file of any size, any number of empty files, and a run in
    which one file fails. */
module Instances {
  import opened Wrappers
  import opened Bytes
  import opened Headers
  import opened ExtraField
  import opened EndRecords
  import opened Snapshot
  import opened Writer
  import opened Archive
  import opened Repeat

  function StoredFile(name: bytes, data: bytes): File {
    File(Snap(name, false, false, 0, 0, 0, 0, Config(STORE, 0, NotEncrypted, []), |data|, 0, 0, 0, 0, None,
              Some(map[]), []),
         Content(data, 0))
  }

  function StoringPipeline(): Pipeline {
    Pipeline((c: Config, d: bytes, draw: nat) => Output(d, true), (d: bytes) => 0)
  }

  function StoredEntry(name: bytes, data: bytes, offset: nat): Entry {
    EntryOf(StoredFile(name, data), offset, false, StoringPipeline())
  }

  function ExtraOf(s: Snap): bytes {
    if NeedsZip64(s) then EncodeZip64(s.usize, s.csize, s.offset) else []
  }

  function StoredRecord(name: bytes, data: bytes, offset: nat): Record {
    var e := StoredEntry(name, data, offset);
    Record([], e.encoding.snap, e.local, e.encoding.out, e.descriptor,
           CentralOf(e.encoding.snap, ExtraOf(e.encoding.snap)))
  }

  /** The extra field holds at most a Zip64 block. */
  lemma ExtraIs(s: Snap)
    requires s.extra == Some(map[]) && s.times.None? && s.config.encryption == NotEncrypted
    ensures CentralExtra(s, ExtraOf(s))
  {
    var m := WithBlocks(s, map[]);
    var ks := if NeedsZip64(s) then [ZIP64_TAG] else [];
    assert NeedsZip64(s) ==> Concat(ks, m) == ExtraOf(s) + [];
    assert Concat(ks, m) == ExtraOf(s);
  }

  lemma StoredSnap(name: bytes, data: bytes, offset: nat)
    ensures var (e, t) := (StoredEntry(name, data, offset),
                           StreamSnap(StoredFile(name, data).snap.(offset := offset), false));
            && e == Entry(Encoding(data, t.(usize := |data|, csize := |data|, crc := 0), None), LocalOf(t),
                          EncodeDescriptor(0, |data|, |data|))
            && t.usize == t.csize == |data| && t.config.encryption == NotEncrypted
  {
  }

  /** A record in its place, of a stored file. */
  ghost predicate StoredAs(r: Record, name: bytes, data: bytes, offset: nat) {
    && r.junk == [] && RecordOk(r, offset)
    && r.snap.name == name && !r.snap.isDir && HasSizes(r.snap, |data|, offset) && r.snap.config.comment == []
    && r.payload == data && LocalFits(r.local) && CentralFits(r.central)
       && r.central == CentralOf(r.snap, ExtraOf(r.snap))
    && |RecordBytes(r)| == 46 + |name| + |data| + (if |data| > MAX_UINT32 then 28 else 0)
    && |EncodeCentral(r.central)| == 46 + |name| + |ExtraOf(r.snap)|
  }

  lemma StoredRecordOk(name: bytes, data: bytes, offset: nat)
    requires |name| <= MAX_STRING_LENGTH
    ensures var (f, r) := (StoredFile(name, data), StoredRecord(name, data, offset));
            Written(f, false, StoringPipeline(), r) && CountsRight(f, false) && StoredAs(r, name, data, offset)
  {
    StoredSnap(name, data, offset);
    StoredFrom(StoredRecord(name, data, offset), StreamSnap(StoredFile(name, data).snap.(offset := offset), false),
               name, data, offset);
  }

  lemma StoredFrom(r: Record, t: Snap, name: bytes, data: bytes, offset: nat)
    requires |name| <= MAX_STRING_LENGTH && t.name == name && !t.isDir && t.usize == t.csize == |data|
             && t.offset == offset
    requires t.extra == Some(map[]) && t.times.None? && t.config.encryption == NotEncrypted && t.config.comment == []
    requires var s := t.(usize := |data|, csize := |data|, crc := 0);
             r == Record([], s, LocalOf(t), data, EncodeDescriptor(0, |data|, |data|), CentralOf(s, ExtraOf(s)))
    ensures StoredAs(r, name, data, offset)
  {
    ExtraIs(r.snap);
    CentralOfFits(r.snap, ExtraOf(r.snap));
    SmallU16(|r.local.name|);
    SmallU16(|r.local.extra|);
  }

  predicate HasSizes(s: Snap, size: nat, offset: nat) {
    s.usize == size && s.csize == size && s.offset == offset
  }

  // ---------------------------------------------------------------- a single file of any size

  lemma SingleLog(r: Record, name: bytes, data: bytes)
    requires StoredAs(r, name, data, 0)
    ensures LogOk([r]) && Local([r]) == RecordBytes(r) && |Central([r])| == 46 + |name| + |ExtraOf(r.snap)|
    ensures Local([r]) + [] == Local([r]) && Centrals([r]) == [r.central]
  {
    LogAppend([], r);
    assert [] + [r] == [r] && [] + RecordBytes(r) == RecordBytes(r)
           && [] + EncodeCentral(r.central) == EncodeCentral(r.central);
    MapAt(CentralOfRecord, [r], 0);
  }

  /** A single stored file, whatever its name and contents: its archive lists it, and its data is found
      if and only if it is no longer than 0xFFFFFFFF bytes, because a lone Zip64 block is not read.  The
      one size in between for which the archive cannot be loaded is that where the directory begins at
      0xFFFFFFFF. */
  lemma SingleFile(name: bytes, data: bytes, decode: bytes -> bytes)
    requires |name| <= MAX_STRING_LENGTH && |data| < 0x4000_0000_0000_0000 && !EndsInSlash(name)
    ensures var (log, archive) := ([StoredRecord(name, data, 0)], ArchiveBytes([StoredRecord(name, data, 0)], [], []));
            var f := FileOf(StoredRecord(name, data, 0).central, decode);
            && f.name == name && !f.isDir
            && (46 + |name| + |data| != MAX_UINT32 ==> Listing(archive) == Some([StoredRecord(name, data, 0).central]))
            && (46 + |name| + |data| == MAX_UINT32 && NoStrayLocator(archive, []) ==> Listing(archive) == None)
            && (RawData(archive, f.conf.offset, f.conf.csize) == Some(data) <==> |data| <= MAX_UINT32)
  {
    var r := StoredRecord(name, data, 0);
    StoredRecordOk(name, data, 0);
    SingleListing(r, name, data);
    SingleEntry(r, name, data, decode);
  }

  lemma SingleListing(r: Record, name: bytes, data: bytes)
    requires StoredAs(r, name, data, 0) && |name| <= MAX_STRING_LENGTH && |data| < 0x4000_0000_0000_0000
    ensures var archive := ArchiveBytes([r], [], []);
            && (46 + |name| + |data| != MAX_UINT32 ==> Listing(archive) == Some([r.central]))
            && (46 + |name| + |data| == MAX_UINT32 && NoStrayLocator(archive, []) ==> Listing(archive) == None)
  {
    SingleLog(r, name, data);
    NoCommentSafe([r]);
    WriteThenLoad([r], [], []);
  }

  lemma SingleEntry(r: Record, name: bytes, data: bytes, decode: bytes -> bytes)
    requires StoredAs(r, name, data, 0) && !EndsInSlash(name) && |data| < 0x4000_0000_0000_0000
    ensures var (archive, f) := (ArchiveBytes([r], [], []), FileOf(r.central, decode));
            && f.name == name && !f.isDir
            && (RawData(archive, f.conf.offset, f.conf.csize) == Some(data) <==> |data| <= MAX_UINT32)
  {
    SingleLog(r, name, data);
    NameReadsBackIff(r.snap, r.central.extra, decode);
    StoredSizes(r.snap, |data|, decode);
    SingleData([r], |data|);
  }

  lemma SingleData(log: seq<Record>, size: nat)
    requires |log| == 1 && LogOk(log) && LocalFits(log[0].local) && |log[0].payload| == size && log[0].snap.offset == 0
    ensures RawData(ArchiveBytes(log, [], []), 0, Min(size, MAX_UINT32)) == Some(log[0].payload) <==> size <= MAX_UINT32
  {
    BehindLocal(log, [], []);
    RawDataIff(log, 0, [] + Central(log) + EndBytesOf(log, [], []), Min(size, MAX_UINT32));
  }

  lemma StoredSizes(s: Snap, size: nat, decode: bytes -> bytes)
    requires HasSizes(s, size, 0) && size < 0x4000_0000_0000_0000
    ensures HasValues(FileOf(CentralOf(s, ExtraOf(s)), decode).conf, Min(size, MAX_UINT32), Min(size, MAX_UINT32), 0)
  {
    ClampIs(size);
    ClampIs(0);
    if size > MAX_UINT32 {
      LoneZip64Lost(size, size, 0, SharedOfCentral(CentralOf(s, ExtraOf(s))));
    } else {
      SizesReadBack(s, [], decode);
    }
  }

  lemma NoCommentSafe(log: seq<Record>)
    ensures NoFakedEnd(ArchiveBytes(log, [], []), [])
  {
  }

  // ---------------------------------------------------------------- any number of empty files

  const EMPTY_SECTION: nat := 47

  /** `n` records one behind the other, each made for its place. */
  function Copies(record: nat -> Record, n: nat): seq<Record> {
    if n == 0 then [] else Copies(record, n - 1) + [record(EMPTY_SECTION * (n - 1))]
  }

  function Repeated(f: File, n: nat): seq<File> {
    if n == 0 then [] else Repeated(f, n - 1) + [f]
  }

  /** The record is that of the empty file `f`, with a name of one byte. */
  ghost predicate EmptyRecord(f: File, r: Record, at: nat) {
    && Written(f, false, StoringPipeline(), r) && RecordOk(r, at) && r.junk == [] && CentralFits(r.central)
    && |RecordBytes(r)| == EMPTY_SECTION && |EncodeCentral(r.central)| == EMPTY_SECTION && r.central.usize == 0
  }

  ghost predicate AllEmpty(f: File, record: nat -> Record) {
    forall at: nat :: at < MAX_UINT32 ==> EmptyRecord(f, record(at), at)
  }

  /** `log` is what a run over `files` leaves, with sections and directory entries of 47 bytes. */
  ghost predicate EmptyLog(files: seq<File>, log: seq<Record>) {
    && LogOk(log) && LogFor(files, false, StoringPipeline(), log) && NoJunk(log)
    && |Local(log)| == EMPTY_SECTION * |log| && |Central(log)| == EMPTY_SECTION * |log|
    && forall r :: r in log ==> CentralFits(r.central)
  }

  lemma {:induction false} CopiesOk(f: File, record: nat -> Record, n: nat)
    requires EMPTY_SECTION * n < MAX_UINT32 && AllEmpty(f, record)
    ensures EmptyLog(Repeated(f, n), Copies(record, n)) && |Copies(record, n)| == n
  {
    EmptyStart(f, record, n);
    if n > 0 {
      CopiesOk(f, record, n - 1);
      CopiesNext(f, record, n);
    }
  }

  lemma CopiesNext(f: File, record: nat -> Record, n: nat)
    requires 0 < EMPTY_SECTION * n < MAX_UINT32 && AllEmpty(f, record)
    requires EmptyLog(Repeated(f, n - 1), Copies(record, n - 1)) && |Copies(record, n - 1)| == n - 1
    ensures EmptyLog(Repeated(f, n), Copies(record, n)) && |Copies(record, n)| == n
  {
    var at := EMPTY_SECTION * (n - 1);
    assert EmptyRecord(f, record(at), at);
    EmptyNext(Repeated(f, n - 1), f, Copies(record, n - 1), record(at));
  }

  lemma EmptyStart(f: File, record: nat -> Record, n: nat)
    ensures n == 0 ==> EmptyLog(Repeated(f, n), Copies(record, n)) && |Copies(record, n)| == n
  {
  }

  lemma EmptyNext(files: seq<File>, f: File, log: seq<Record>, r: Record)
    requires EmptyLog(files, log) && EmptyRecord(f, r, EMPTY_SECTION * |log|)
    ensures EmptyLog(files + [f], log + [r])
  {
    LogAppend(log, r);
    NoJunkNext(log, log + [r]);
    LogForNext(files, f, false, StoringPipeline(), log, log + [r]);
  }

  lemma EmptyRecordOk(name: bytes, at: nat)
    requires |name| == 1 && at < MAX_UINT32
    ensures EmptyRecord(StoredFile(name, []), StoredRecord(name, [], at), at)
  {
    StoredRecordOk(name, [], at);
    EmptyFrom(StoredRecord(name, [], at), name, at);
  }

  lemma EmptyFrom(r: Record, name: bytes, at: nat)
    requires |name| == 1 && at < MAX_UINT32 && StoredAs(r, name, [], at)
    ensures |RecordBytes(r)| == EMPTY_SECTION && |EncodeCentral(r.central)| == EMPTY_SECTION && r.central.usize == 0
  {
    assert !NeedsZip64(r.snap);
  }

  /** The archive of any number of empty files can be loaded, except for exactly 65535 of them: then
      the writer makes no Zip64 records, and the reader looks for them. */
  lemma EntryCountIff(name: bytes, n: nat)
    requires |name| == 1 && EMPTY_SECTION * n < MAX_UINT32
    ensures var log := Copies((at: nat) => StoredRecord(name, [], at), n);
            && EmptyLog(Repeated(StoredFile(name, []), n), log) && |log| == n
            && Listing(ArchiveBytes(log, [], [])) == if n == 65535 then None else Some(Centrals(log))
  {
    var f, record := StoredFile(name, []), (at: nat) => StoredRecord(name, [], at);
    forall at: nat | at < MAX_UINT32
      ensures EmptyRecord(f, record(at), at)
    {
      EmptyRecordOk(name, at);
    }
    CopiesOk(f, record, n);
    CopiesLoad(f, record, n);
  }

  lemma CopiesLoad(f: File, record: nat -> Record, n: nat)
    requires EMPTY_SECTION * n < MAX_UINT32 && AllEmpty(f, record)
    ensures var log := Copies(record, n);
            Listing(ArchiveBytes(log, [], [])) == if n == 65535 then None else Some(Centrals(log))
  {
    var log := Copies(record, n);
    CopiesOk(f, record, n);
    NoCommentSafe(log);
    NoTail(Local(log));
    WriteThenLoad(log, [], []);
    if n == 65535 {
      NoLocatorThere(f, record, n);
    }
  }

  lemma NoLocatorThere(f: File, record: nat -> Record, n: nat)
    requires 0 < n <= 65535 && AllEmpty(f, record)
    ensures NoStrayLocator(ArchiveBytes(Copies(record, n), [], []), [])
  {
    var (init, last) := (Copies(record, n - 1), record(EMPTY_SECTION * (n - 1)));
    CopiesOk(f, record, n - 1);
    assert EmptyRecord(f, last, EMPTY_SECTION * |init|);
    NoLocatorBehind(Repeated(f, n - 1), f, init, last);
  }

  lemma NoLocatorBehind(files: seq<File>, f: File, init: seq<Record>, r: Record)
    requires EmptyLog(files, init) && EmptyRecord(f, r, EMPTY_SECTION * |init|) && |init| < 65535
    ensures NoStrayLocator(ArchiveBytes(init + [r], [], []), [])
  {
    EmptyNext(files, f, init, r);
    ByteBeforeEnd(init, r);
  }

  /** Where the reader would look for a locator stands a byte of the last directory entry: one of its
      uncompressed size, which is zero. */
  lemma ByteBeforeEnd(init: seq<Record>, r: Record)
    requires |EncodeCentral(r.central)| == EMPTY_SECTION && r.central.usize == 0
    requires !ArchiveRequiresZip64(|init| + 1, |Central(init + [r])|, |Local(init + [r]) + []|)
    ensures NoStrayLocator(ArchiveBytes(init + [r], [], []), [])
  {
    var (log, d) := (init + [r], EncodeCentral(r.central));
    var (body, end, file) := (Local(log) + [], EndBytesOf(log, [], []), ArchiveBytes(log, [], []));
    LogAppend(init, r);
    Associate(body, Central(init), d);
    assert file == (body + Central(init)) + d + end;
    UsizeTop(r.central);
    NotTheLocator(body + Central(init), d, end);
  }

  lemma NotTheLocator(pre: bytes, d: bytes, end: bytes)
    requires |d| == EMPTY_SECTION && d[27] == 0 && |end| == EOCD_SIZE
    ensures NoStrayLocator(pre + d + end, [])
  {
    var file, at := pre + d + end, |pre| + 27;
    assert file[at..at + 4][0] == file[at] == 0;
    SignatureBytes(file, at, LOCATOR_SIGNATURE);
    LEStep(4, LOCATOR_SIGNATURE);
  }

  lemma UsizeTop(h: CentralHeader)
    requires h.usize == 0
    ensures |EncodeCentral(h)| >= 46 && EncodeCentral(h)[27] == 0
  {
    CentralFieldsHigh(h, h.name + h.extra + h.comment);
    CentralFieldsLow(h, h.name + h.extra + h.comment);
    assert EncodeCentral(h) == CentralFixed(h) + (h.name + h.extra + h.comment);
    assert EncodeCentral(h)[24..28] == LE(4, 0);
    ZeroDigit(3);
  }

  // ---------------------------------------------------------------- a run in which one file fails

  /** Stores everything, but gives up at the end of `bad`. */
  function FailingPipeline(bad: bytes): Pipeline {
    Pipeline((c: Config, d: bytes, draw: nat) => Output(d, d != bad), (d: bytes) => 0)
  }

  /** After a failure that has left one byte of data, without seeking. */
  function AfterFailure(left: bytes): Progress
    requires left != []
  {
    Progress([], left, left, |left| - 1)
  }

  function AfterNext(left: bytes, r: Record): Progress
    requires left != []
  {
    Progress([r.(junk := left)], [], left + RecordBytes(r), |left| - 1 + |RecordBytes(r)|)
  }

  lemma FailingEntry(name: bytes, data: bytes, bad: bytes, offset: nat)
    ensures var (e, p) := (StoredEntry(name, data, offset),
                           EntryOf(StoredFile(name, data), offset, false, FailingPipeline(bad)));
            if data == bad then p.encoding.out == bad && p.encoding.err == Some(EncodeFailed) else p == e
  {
  }

  /** A file of one byte fails, and the next one is written: its header names the place one byte before
      it, and so do the end records for the directory, and the archive cannot be loaded. */
  lemma OneByteShifts(failing: bytes, bad: bytes, name: bytes, data: bytes) returns (p: Progress, q: Progress)
    requires |bad| == 1 && data != bad && |data| < 0x100_0000 && |failing| <= MAX_STRING_LENGTH
             && |name| <= MAX_STRING_LENGTH
    ensures var (pipe, f, g) := (FailingPipeline(bad), StoredFile(failing, bad), StoredFile(name, data));
            && Failure(f, false, pipe) == Some(EncodeFailed) && LeavesData(f, false, pipe)
            && Abandoned(Progress([], [], [], 0), p, f, false, pipe) && Added(p, q, g, false, pipe)
    ensures |q.log| == 1 && q.log[0].snap.offset == |p.dest| - 1 && q.at >= 0
    ensures Listing(q.dest + Central(q.log) + EndBytes(1, |Central(q.log)|, q.at, [])) == None
  {
    var left := FailedFirst(failing, bad);
    p := AfterFailure(left);
    q := SecondAdded(left, StoredFile(name, data), FailingPipeline(bad), bad, name, data);
  }

  lemma FailedFirst(failing: bytes, bad: bytes) returns (left: bytes)
    requires |bad| == 1 && |failing| <= MAX_STRING_LENGTH
    ensures var (pipe, f) := (FailingPipeline(bad), StoredFile(failing, bad));
            && Failure(f, false, pipe) == Some(EncodeFailed) && LeavesData(f, false, pipe)
               && 30 <= |left| <= 31 + |failing|
            && Abandoned(Progress([], [], [], 0), AfterFailure(left), f, false, pipe)
  {
    var (pipe, f) := (FailingPipeline(bad), StoredFile(failing, bad));
    FailingEntry(failing, bad, bad, 0);
    left := Leftover(f, 0, false, pipe);
    assert [] + left == left;
    AbandonedOk(Progress([], [], [], 0), AfterFailure(left), f, false, pipe);
  }

  lemma SecondAdded(left: bytes, g: File, pipe: Pipeline, bad: bytes, name: bytes, data: bytes) returns (q: Progress)
    requires 0 < |left| <= 31 + MAX_STRING_LENGTH && data != bad && |data| < 0x100_0000 && |name| <= MAX_STRING_LENGTH
    requires g == StoredFile(name, data) && pipe == FailingPipeline(bad)
    ensures Added(AfterFailure(left), q, g, false, pipe)
    ensures |q.log| == 1 && q.log[0].snap.offset == |left| - 1 && q.at >= 0
    ensures Listing(q.dest + Central(q.log) + EndBytes(1, |Central(q.log)|, q.at, [])) == None
  {
    var r := StoredAnyway(name, data, bad, |left| - 1);
    q := SecondFrom(left, g, pipe, r, name, data);
  }

  /** The record of a small file that does not fail. */
  lemma StoredAnyway(name: bytes, data: bytes, bad: bytes, offset: nat) returns (r: Record)
    requires data != bad && |data| < 0x100_0000 && |name| <= MAX_STRING_LENGTH
    ensures SmallIn(StoredFile(name, data), FailingPipeline(bad), r, name, data, offset)
  {
    r := StoredRecord(name, data, offset);
    StoredRecordOk(name, data, offset);
    EndsInZero(name, data, offset);
    NotFailing(StoredFile(name, data), r, name, data, bad, offset);
  }

  /** The record of the file in this run, and that it ends in a zero. */
  ghost predicate SmallIn(f: File, pipe: Pipeline, r: Record, name: bytes, data: bytes, offset: nat) {
    && Written(f, false, pipe, r) && CountsRight(f, false) && StoredAs(r, name, data, offset)
    && RecordBytes(r)[|RecordBytes(r)| - 1] == 0
  }

  lemma NotFailing(f: File, r: Record, name: bytes, data: bytes, bad: bytes, offset: nat)
    requires data != bad && f == StoredFile(name, data) && r.snap.offset == offset
    requires Written(f, false, StoringPipeline(), r) && CountsRight(f, false) && StoredAs(r, name, data, offset)
    requires RecordBytes(r)[|RecordBytes(r)| - 1] == 0
    ensures SmallIn(f, FailingPipeline(bad), r, name, data, offset)
  {
    FailingEntry(name, data, bad, offset);
  }

  lemma SecondFrom(left: bytes, f: File, pipe: Pipeline, r: Record, name: bytes, data: bytes) returns (q: Progress)
    requires 0 < |left| <= 31 + MAX_STRING_LENGTH && |data| < 0x100_0000 && |name| <= MAX_STRING_LENGTH
    requires SmallIn(f, pipe, r, name, data, |left| - 1)
    ensures Added(AfterFailure(left), q, f, false, pipe)
    ensures |q.log| == 1 && q.log[0].snap.offset == |left| - 1 && q.at >= 0
    ensures Listing(q.dest + Central(q.log) + EndBytes(1, |Central(q.log)|, q.at, [])) == None
  {
    AddedBehind(left, f, pipe, r);
    ShiftedListing(left, r);
    q := AfterNext(left, r);
  }

  lemma AddedBehind(left: bytes, f: File, pipe: Pipeline, r: Record)
    requires left != [] && Written(f, false, pipe, r) && CountsRight(f, false) && r.snap.offset == |left| - 1
    ensures Added(AfterFailure(left), AfterNext(left, r), f, false, pipe)
  {
    var (p, q) := (AfterFailure(left), AfterNext(left, r));
    WrittenOk(f, false, pipe, r.snap, r.local, r.payload, r.descriptor);
    SecondPlaced(left, r, p, q);
    AddedOk(p, q, f, false, pipe, r.snap, r.local, r.payload, r.descriptor);
  }

  lemma SecondPlaced(left: bytes, r: Record, p: Progress, q: Progress)
    requires left != [] && p == AfterFailure(left) && q == AfterNext(left, r)
    ensures |q.log| == |p.log| + 1 && q.log[..|p.log|] == p.log && q.log[0].junk == p.tail
    ensures Local(q.log) == Local(p.log) + (p.tail + RecordBytes(r)) && Local(p.log) == []
  {
    LogAppend([], r.(junk := left));
    assert [] + [r.(junk := left)] == q.log;
  }

  lemma ShiftedListing(left: bytes, r: Record)
    requires 0 < |left| <= 31 + MAX_STRING_LENGTH && 0 < |RecordBytes(r)| < 0x200_0000
             && RecordBytes(r)[|RecordBytes(r)| - 1] == 0
    ensures var q := AfterNext(left, r);
            Listing(q.dest + Central(q.log) + EndBytes(1, |Central(q.log)|, q.at, [])) == None
  {
    DirectoryMissed(left + RecordBytes(r), Central(AfterNext(left, r).log), 1);
  }

  /** The last byte of a small entry is the high byte of its size. */
  lemma EndsInZero(name: bytes, data: bytes, offset: nat)
    requires |data| < 0x100_0000
    ensures var s := RecordBytes(StoredRecord(name, data, offset)); s != [] && s[|s| - 1] == 0
  {
    StoredSnap(name, data, offset);
    DescriptorEnd(|data|);
  }

  lemma DescriptorEnd(size: nat)
    requires size < 0x100_0000
    ensures var d := EncodeDescriptor(0, size, size); |d| == 16 && d[15] == 0
  {
    assert EncodeDescriptor(0, size, size)[15] == LE(4, size)[3] == Digit(size, 3);
    assert Digit(size, 3) == Digit(size / 256, 2) == Digit(size / 256 / 256, 1) == size / 256 / 256 / 256 % 256;
  }

  /** A directory that is looked for one byte early is not found. */
  lemma DirectoryMissed(body: bytes, cd: bytes, entries: nat)
    requires body != [] && body[|body| - 1] == 0 && 0 < entries < MAX_UINT16 && |body| <= MAX_UINT32
    ensures Listing(body + cd + EndBytes(entries, |cd|, |body| - 1, [])) == None
  {
    var (pre, end) := (body + cd, EndBytes(entries, |cd|, |body| - 1, []));
    LastRecordFound(pre, entries, |cd|, |body| - 1, []);
    assert (pre + end)[|body| - 1] == 0;
    NotListed(pre + end, TrueEocd(entries, |cd|, |body| - 1, []), |body| - 1);
  }

  lemma NotListed(file: bytes, e: Eocd, at: nat)
    requires LastCandidate(file).Some? && ReadEocd(file[LastCandidate(file).value + 4..]) == Some(e)
    requires e.offset == at < |file| && file[at] == 0 && at < MAX_UINT32 && 0 < e.entries < MAX_UINT16
    ensures Listing(file) == None
  {
    NotAnEntry(From(file, at));
  }

  lemma NotAnEntry(src: bytes)
    requires src != [] && src[0] == 0
    ensures ReadEntry(src).None?
  {
    SignatureBytes(src, 0, CENTRAL_SIGNATURE);
    LEStep(4, CENTRAL_SIGNATURE);
    if |src| >= 4 {
      assert src[0..4][0] == 0;
    }
  }
}
