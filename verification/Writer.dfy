/** `zipWriter`: the entries of an archive written one after the other, with the central directory
    collected on the side.  The destination is a byte string that grows; a seekable destination can
    be patched.  Compression, encryption and CRC-32 are parameters. */
module Writer {
  import opened Wrappers
  import opened Bytes
  import opened Headers
  import opened ExtraField
  import opened EndRecords
  import opened Snapshot

  const DESCRIPTOR_SIGNATURE: u32 := 0x08074b50

  /** What an entry is made from: stored bytes that are copied as they are, or content to encode.  A
      copy can break off.  `draw` stands for the random bytes that are drawn while an entry is encoded. */
  datatype Source = Unreadable | Raw(stored: bytes, complete: bool) | Content(data: bytes, draw: nat)

  datatype File = File(snap: Snap, source: Source)

  /** What a pipeline has written, and whether it got to the end. */
  datatype Output = Output(out: bytes, ok: bool)

  /** Compression followed by encryption.  It fails when the method is unknown, the source breaks off
      or the compressor gives up, after any number of bytes. */
  datatype Pipeline = Pipeline(encode: (Config, bytes, nat) -> Output, crc: bytes -> u32)

  /** `NilMap` is not an error value but a panic: it ends the run. */
  datatype Error = OpenFailed | CopyFailed | EncodeFailed | SizeMismatch | TooLarge | NilMap

  // ---------------------------------------------------------------- the encoding step

  datatype Encoding = Encoding(out: bytes, snap: Snap, err: Option<Error>)

  /** `encodeToAndUpdate`: the bytes written, and the snapshot with the sizes found.  Raw copies do
      not update it. */
  function Encode(s: Snap, source: Source, pipe: Pipeline): Encoding {
    match source
    case Unreadable => Encoding([], s, Some(OpenFailed))
    case Raw(stored, complete) => Encoding(stored, s, if complete then None else Some(CopyFailed))
    case Content(data, draw) =>
      var e := pipe.encode(s.config, data, draw);
      if !e.ok then Encoding(e.out, s, Some(EncodeFailed))
      else if s.usize != SIZE_UNKNOWN && s.usize != |data| then Encoding(e.out, s, Some(SizeMismatch))
      else
        Encoding(e.out,
                 s.(usize := |data|, csize := |e.out|,
                    crc := if s.config.encryption == Aes256 then 0 else pipe.crc(data)),
                 None)
  }

  /** The record behind the data of an entry written without seeking. */
  function EncodeDescriptor(crc: u32, csize: int, usize: int): bytes {
    if csize > MAX_UINT32 || usize > MAX_UINT32
    then LE(4, DESCRIPTOR_SIGNATURE) + LE(4, crc) + LE(8, csize) + LE(8, usize)
    else LE(4, DESCRIPTOR_SIGNATURE) + LE(4, crc) + LE(4, csize) + LE(4, usize)
  }

  // ---------------------------------------------------------------- the written archive

  /** One written entry: what failed entries have left in front of it, its bytes in the local section,
      and its header in the directory. */
  datatype Record = Record(junk: bytes, snap: Snap, local: LocalHeader, payload: bytes, descriptor: bytes,
                           central: CentralHeader)

  function RecordBytes(r: Record): bytes {
    EncodeLocal(r.local) + r.payload + r.descriptor
  }

  function Local(log: seq<Record>): bytes {
    if log == [] then [] else Local(log[..|log| - 1]) + (log[|log| - 1].junk + RecordBytes(log[|log| - 1]))
  }

  function Central(log: seq<Record>): bytes {
    if log == [] then [] else Central(log[..|log| - 1]) + EncodeCentral(log[|log| - 1].central)
  }

  function EndBytesOf(log: seq<Record>, tail: bytes, comment: bytes): bytes {
    EndBytes(|log|, |Central(log)|, |Local(log) + tail|, comment)
  }

  /** The whole file; `tail` is what failed entries have left behind the last record. */
  function ArchiveBytes(log: seq<Record>, tail: bytes, comment: bytes): bytes {
    Local(log) + tail + Central(log) + EndBytesOf(log, tail, comment)
  }

  /** The record describes its entry, which stands behind offset `at`. */
  ghost predicate RecordOk(r: Record, at: nat) {
    && r.snap.offset == at + |r.junk|
    && r.central == CentralOf(r.snap, r.central.extra) && CentralExtra(r.snap, r.central.extra)
    && NamesOk(r.snap, r.local)
  }

  predicate NamesOk(s: Snap, local: LocalHeader) {
    local.name == EntryName(s) && local.nameLen == ToU16(|local.name|) && local.extraLen == ToU16(|local.extra|)
  }

  predicate Holds(r: Record, s: Snap, local: LocalHeader, payload: bytes, descriptor: bytes) {
    r.snap == s && r.local == local && r.payload == payload && r.descriptor == descriptor
  }

  /** Every record is where the directory says it is. */
  ghost predicate LogOk(log: seq<Record>) {
    log == [] || (LogOk(log[..|log| - 1]) && RecordOk(log[|log| - 1], |Local(log[..|log| - 1])|))
  }

  /** Nothing stands between the records. */
  predicate NoJunk(log: seq<Record>) {
    log == [] || (NoJunk(log[..|log| - 1]) && log[|log| - 1].junk == [])
  }

  lemma NoJunkNext(before: seq<Record>, log: seq<Record>)
    requires |log| == |before| + 1 && log[..|before|] == before
    ensures log[|before|].junk == [] ==> (NoJunk(log) <==> NoJunk(before))
  {
  }

  lemma LogAppend(log: seq<Record>, r: Record)
    ensures Local(log + [r]) == Local(log) + (r.junk + RecordBytes(r))
            && Central(log + [r]) == Central(log) + EncodeCentral(r.central)
    ensures LogOk(log + [r]) <==> LogOk(log) && RecordOk(r, |Local(log)|)
    ensures (log + [r])[..|log|] == log
  {
    assert (log + [r])[..|log|] == log;
  }

  // ---------------------------------------------------------------- which way an entry is written

  /** Entries of declared size zero are stored without encryption. */
  function Prepared(f: File): Snap {
    if f.snap.usize == 0 then Reset(f.snap) else f.snap
  }

  /** The choice looks at the configuration of the file, before that reset. */
  predicate Streams(f: File, isSeeker: bool) {
    && f.snap.config.encryption == NotEncrypted
    && if isSeeker then f.snap.usize != SIZE_UNKNOWN else f.snap.config.scheme != DEFLATE64
  }

  /** The snapshot for which a streamed entry's local header is written. */
  function StreamSnap(s: Snap, isSeeker: bool): Snap {
    var s1 := if isSeeker then s else s.(flags := On(s.flags, DESCRIPTOR));
    if s1.config.scheme == STORE then s1.(csize := s1.usize) else s1
  }

  /** The number of bytes by which the writer advances for the data of a raw copy. */
  function RecordedSize(f: File, isSeeker: bool): int {
    (if Streams(f, isSeeker) then StreamSnap(Prepared(f), isSeeker) else Prepared(f)).csize
  }

  /** That number is the number it copies.  (For encoded content the number is counted.) */
  predicate CountsRight(f: File, isSeeker: bool) {
    !f.snap.isDir && f.source.Raw? && f.source.complete ==> RecordedSize(f, isSeeker) == |f.source.stored|
  }

  /** The position does not move back; and when headers are patched it does not get ahead of the
      destination either. */
  predicate Tractable(f: File, isSeeker: bool) {
    !f.snap.isDir && f.source.Raw? && f.source.complete ==>
      0 <= RecordedSize(f, isSeeker) && (isSeeker ==> RecordedSize(f, isSeeker) <= |f.source.stored|)
  }

  /** A local header with CRC and sizes overwritten. */
  function Patched(h: LocalHeader, s: Snap): LocalHeader {
    h.(crc := s.crc, csize := ToU32(s.csize), usize := ToU32(s.usize))
  }

  /** An entry as it comes out: the data with the final snapshot, the local header, the descriptor. */
  datatype Entry = Entry(encoding: Encoding, local: LocalHeader, descriptor: bytes)

  /** Streamed entries: the header was written before the data; it is patched later or followed by a
      descriptor.  A header can only be patched with sizes of 32 bits. */
  function Streamed(s: Snap, isSeeker: bool, source: Source, pipe: Pipeline): Entry {
    var t := StreamSnap(s, isSeeker);
    var e := Encode(t, source, pipe);
    if isSeeker then Entry(if e.err.None? && Oversized(e.snap) then e.(err := Some(TooLarge)) else e,
                           Patched(LocalOf(t), e.snap), [])
    else Entry(e, LocalOf(t), EncodeDescriptor(e.snap.crc, e.snap.csize, e.snap.usize))
  }

  predicate Oversized(s: Snap) {
    s.csize > MAX_UINT32 || s.usize > MAX_UINT32
  }

  /** The entry of `f` when it is written at `offset`, for each way of writing it. */
  function EntryOf(f: File, offset: int, isSeeker: bool, pipe: Pipeline): Entry {
    var s := Prepared(f).(offset := offset);
    if f.snap.isDir then Entry(Encoding([], s, None), LocalOf(s), [])
    else if Streams(f, isSeeker) then Streamed(s, isSeeker, f.source, pipe)
    else
      var e := Encode(s, f.source, pipe);
      Entry(e, LocalOf(e.snap), [])
  }

  predicate Written(f: File, isSeeker: bool, pipe: Pipeline, r: Record) {
    EntryOf(f, r.snap.offset, isSeeker, pipe) == Entry(Encoding(r.payload, r.snap, None), r.local, r.descriptor)
  }

  /** Why an entry is not written; the offset does not matter. */
  function Failure(f: File, isSeeker: bool, pipe: Pipeline): Option<Error> {
    EntryOf(f, 0, isSeeker, pipe).encoding.err
  }

  /** The bytes a failed entry leaves in the destination: nothing if it was encoded to a temporary
      file, else its header and all its data so far. */
  function Leftover(f: File, offset: int, isSeeker: bool, pipe: Pipeline): bytes {
    if f.snap.isDir || !Streams(f, isSeeker) then []
    else
      var t := StreamSnap(Prepared(f).(offset := offset), isSeeker);
      EncodeLocal(LocalOf(t)) + EntryOf(f, offset, isSeeker, pipe).encoding.out
  }

  /** How many bytes of an entry the position does not count: all data of one that has failed, unless
      it was only found to be too large at its end; and whatever the recorded size of a raw copy falls
      short of its length. */
  function Uncounted(f: File, isSeeker: bool, pipe: Pipeline): int {
    var e := EntryOf(f, 0, isSeeker, pipe).encoding;
    if f.snap.isDir then 0
    else if e.err.None? then |e.out| - e.snap.csize
    else if !Streams(f, isSeeker) then 0
    else if e.err.value == TooLarge then |e.out| - e.snap.csize
    else |e.out|
  }

  /** Encoding does not look at the offset. */
  lemma OffsetIrrelevant(f: File, offset: int, isSeeker: bool, pipe: Pipeline)
    ensures var (a, b) := (EntryOf(f, offset, isSeeker, pipe).encoding, EntryOf(f, 0, isSeeker, pipe).encoding);
            a.out == b.out && a.err == b.err && a.snap == b.snap.(offset := offset)
  {
    var s := Prepared(f).(offset := 0);
    if Streams(f, isSeeker) {
      StreamedShift(s, offset, isSeeker, f.source, pipe);
    } else {
      EncodeShift(s, offset, f.source, pipe);
    }
  }

  lemma StreamedShift(s: Snap, offset: int, isSeeker: bool, source: Source, pipe: Pipeline)
    ensures var (a, b) := (Streamed(s.(offset := offset), isSeeker, source, pipe).encoding,
                           Streamed(s, isSeeker, source, pipe).encoding);
            a.out == b.out && a.err == b.err && a.snap == b.snap.(offset := offset)
  {
    StreamSnapShift(s, offset, isSeeker);
    EncodeShift(StreamSnap(s, isSeeker), offset, source, pipe);
  }

  lemma StreamSnapShift(s: Snap, offset: int, isSeeker: bool)
    ensures StreamSnap(s.(offset := offset), isSeeker) == StreamSnap(s, isSeeker).(offset := offset)
  {
  }

  lemma EncodeShift(s: Snap, offset: int, source: Source, pipe: Pipeline)
    ensures Encode(s.(offset := offset), source, pipe)
         == Encode(s, source, pipe).(snap := Encode(s, source, pipe).snap.(offset := offset))
  {
  }

  /** Encoding keeps everything but the sizes and the CRC; and it finds the true sizes. */
  lemma EncodeMeaning(s: Snap, source: Source, pipe: Pipeline)
    ensures var e := Encode(s, source, pipe);
            && e.snap == s.(usize := e.snap.usize, csize := e.snap.csize, crc := e.snap.crc)
            && (source.Content? && e.err.None? ==>
                  && e.snap.usize == |source.data| && e.snap.csize == |e.out|
                     && pipe.encode(s.config, source.data, source.draw) == Output(e.out, true)
                  && e.snap.crc == (if s.config.encryption == Aes256 then 0 else pipe.crc(source.data)))
            && (source.Raw? ==> e.out == source.stored && e.snap == s)
  {
  }

  lemma NamesWritten(f: File, isSeeker: bool, pipe: Pipeline, s: Snap, local: LocalHeader, payload: bytes,
                     descriptor: bytes)
    requires EntryOf(f, s.offset, isSeeker, pipe) == Entry(Encoding(payload, s, None), local, descriptor)
    ensures NamesOk(s, local)
  {
    var p := Prepared(f).(offset := s.offset);
    EncodeMeaning(if Streams(f, isSeeker) then StreamSnap(p, isSeeker) else p, f.source, pipe);
  }

  /** A written entry carries its name, and its compressed size is the length of its data exactly when
      the writer counted right. */
  lemma WrittenOk(f: File, isSeeker: bool, pipe: Pipeline, s: Snap, local: LocalHeader, payload: bytes,
                  descriptor: bytes)
    requires EntryOf(f, s.offset, isSeeker, pipe) == Entry(Encoding(payload, s, None), local, descriptor)
    ensures NamesOk(s, local)
    ensures (if f.snap.isDir then 0 else s.csize) == |payload| <==> CountsRight(f, isSeeker)
    ensures Uncounted(f, isSeeker, pipe) == |payload| - (if f.snap.isDir then 0 else s.csize)
  {
    NamesWritten(f, isSeeker, pipe, s, local, payload, descriptor);
    OffsetIrrelevant(f, s.offset, isSeeker, pipe);
    SizeWritten(f, isSeeker, pipe, s, local, payload, descriptor);
  }

  lemma SizeWritten(f: File, isSeeker: bool, pipe: Pipeline, s: Snap, local: LocalHeader, payload: bytes,
                    descriptor: bytes)
    requires EntryOf(f, s.offset, isSeeker, pipe) == Entry(Encoding(payload, s, None), local, descriptor)
    ensures (if f.snap.isDir then 0 else s.csize) == |payload| <==> CountsRight(f, isSeeker)
    ensures Tractable(f, isSeeker) ==> f.snap.isDir || s.csize >= 0
  {
    var p := Prepared(f).(offset := s.offset);
    EncodeMeaning(if Streams(f, isSeeker) then StreamSnap(p, isSeeker) else p, f.source, pipe);
  }

  /** One record more than `before`, of the file `f`. */
  predicate Extends(before: seq<Record>, log: seq<Record>, f: File, isSeeker: bool, pipe: Pipeline) {
    |log| == |before| + 1 && log[..|before|] == before && Written(f, isSeeker, pipe, log[|before|])
  }

  // ---------------------------------------------------------------- the parallel path

  /** `compressFile`: directories and entries of declared size zero are not encoded at all. */
  function CompressFile(f: File, pipe: Pipeline): Encoding {
    var s := Prepared(f);
    if s.isDir || s.usize == 0 then Encoding([], s, None) else Encode(s, f.source, pipe)
  }

  /** What the parallel path needs: no recorded size without data.  A raw copy of declared size zero
      must be empty, and so must the encoding of content that turns out to be empty. */
  predicate ParallelCountsRight(f: File, pipe: Pipeline) {
    if f.snap.isDir || f.snap.usize == 0 then f.snap.csize == 0
    else
      match f.source
      case Unreadable => true
      case Raw(stored, _) => |stored| == f.snap.csize
      case Content(data, draw) => data == [] ==> pipe.encode(f.snap.config, data, draw).out == []
  }

  /** The recorded size of a file compressed in parallel is the length of the data written for it
      exactly under that condition. */
  lemma ParallelSizeIff(f: File, pipe: Pipeline)
    requires CompressFile(f, pipe).err.None?
    ensures var e := CompressFile(f, pipe);
            e.snap.csize == |if e.snap.usize == 0 then [] else e.out| <==> ParallelCountsRight(f, pipe)
  {
    EncodeMeaning(Prepared(f), f.source, pipe);
  }

  /** The entries that are not left out: implicit directories may be. */
  function Kept(files: seq<File>, implicitToo: bool): seq<File> {
    if files == [] then []
    else
      var f := files[|files| - 1];
      Kept(files[..|files| - 1], implicitToo) + if f.snap.isImplicit && !implicitToo then [] else [f]
  }

  // ---------------------------------------------------------------- a sequential run

  /** The files that get a record: those kept that do not fail. */
  function Successful(files: seq<File>, implicitToo: bool, isSeeker: bool, pipe: Pipeline): seq<File> {
    if files == [] then []
    else
      var f := files[|files| - 1];
      Successful(files[..|files| - 1], implicitToo, isSeeker, pipe)
      + if (f.snap.isImplicit && !implicitToo) || Failure(f, isSeeker, pipe).Some? then [] else [f]
  }

  /** The errors of the others. */
  function Failures(files: seq<File>, isSeeker: bool, pipe: Pipeline): seq<Error> {
    if files == [] then []
    else
      var e := Failure(files[|files| - 1], isSeeker, pipe);
      Failures(files[..|files| - 1], isSeeker, pipe) + if e.Some? then [e.value] else []
  }

  /** The bytes in the destination that the position does not count. */
  function Lag(files: seq<File>, isSeeker: bool, pipe: Pipeline): int {
    if files == [] then 0 else Lag(files[..|files| - 1], isSeeker, pipe) + Uncounted(files[|files| - 1], isSeeker, pipe)
  }

  /** A failed entry that has left data behind its header. */
  predicate LeavesData(f: File, isSeeker: bool, pipe: Pipeline) {
    var e := EntryOf(f, 0, isSeeker, pipe).encoding;
    !f.snap.isDir && Streams(f, isSeeker) && e.err.Some? && e.err.value != TooLarge && e.out != []
  }

  /** When the position can only fall behind, it stays where it was if and only if the entry has not
      failed with data in the destination, and is no raw copy with a wrong size. */
  lemma UncountedIff(f: File, isSeeker: bool, pipe: Pipeline)
    requires Tractable(f, isSeeker) && NotAhead(f, isSeeker)
    ensures Uncounted(f, isSeeker, pipe) >= 0
    ensures Uncounted(f, isSeeker, pipe) == 0 <==> Counted(f, isSeeker, pipe)
  {
    var p := Prepared(f).(offset := 0);
    EncodeMeaning(if Streams(f, isSeeker) then StreamSnap(p, isSeeker) else p, f.source, pipe);
  }

  predicate NotAhead(f: File, isSeeker: bool) {
    !f.snap.isDir && f.source.Raw? && f.source.complete ==> RecordedSize(f, isSeeker) <= |f.source.stored|
  }

  predicate Counted(f: File, isSeeker: bool, pipe: Pipeline) {
    !LeavesData(f, isSeeker, pipe) && CountsRight(f, isSeeker)
  }

  /** The position was right behind every file. */
  predicate Steady(files: seq<File>, isSeeker: bool, pipe: Pipeline) {
    files == [] || (Steady(files[..|files| - 1], isSeeker, pipe) && Lag(files, isSeeker, pipe) == 0)
  }

  lemma {:induction false} LagIff(files: seq<File>, isSeeker: bool, pipe: Pipeline)
    requires forall f :: f in files ==> Tractable(f, isSeeker) && NotAhead(f, isSeeker)
    ensures Lag(files, isSeeker, pipe) >= 0
    ensures Lag(files, isSeeker, pipe) == 0 <==> forall f :: f in files ==> Counted(f, isSeeker, pipe)
    ensures Lag(files, isSeeker, pipe) == 0 ==> Steady(files, isSeeker, pipe)
  {
    if files != [] {
      var init, f := files[..|files| - 1], files[|files| - 1];
      assert f in files && forall g :: g in files <==> g in init || g == f;
      LagIff(init, isSeeker, pipe);
      UncountedIff(f, isSeeker, pipe);
    }
  }

  /** The records are those of the files, in order. */
  predicate LogFor(files: seq<File>, isSeeker: bool, pipe: Pipeline, log: seq<Record>) {
    |log| == |files| && forall i :: 0 <= i < |log| ==> Written(files[i], isSeeker, pipe, log[i])
  }

  lemma RunNext(files: seq<File>, i: nat, implicitToo: bool, isSeeker: bool, pipe: Pipeline)
    requires i < |files|
    ensures var f, e := files[i], Failure(files[i], isSeeker, pipe);
            && Successful(files[..i + 1], implicitToo, isSeeker, pipe)
               == (Successful(files[..i], implicitToo, isSeeker, pipe)
                   + if (f.snap.isImplicit && !implicitToo) || e.Some? then [] else [f])
            && Failures(files[..i + 1], isSeeker, pipe) ==
               Failures(files[..i], isSeeker, pipe) + (if e.Some? then [e.value] else [])
            && Lag(files[..i + 1], isSeeker, pipe) == Lag(files[..i], isSeeker, pipe) + Uncounted(f, isSeeker, pipe)
            && (Steady(files[..i + 1], isSeeker, pipe) <==>
                  Steady(files[..i], isSeeker, pipe) && Lag(files[..i + 1], isSeeker, pipe) == 0)
  {
    assert files[..i + 1][..i] == files[..i];
  }

  lemma LogForNext(files: seq<File>, f: File, isSeeker: bool, pipe: Pipeline, before: seq<Record>, log: seq<Record>)
    requires LogFor(files, isSeeker, pipe, before) && Extends(before, log, f, isSeeker, pipe)
    ensures LogFor(files + [f], isSeeker, pipe, log)
  {
    forall i | 0 <= i < |log|
      ensures Written((files + [f])[i], isSeeker, pipe, log[i])
    {
      if i < |before| {
        assert log[i] == log[..|before|][i] && Written(files[i], isSeeker, pipe, before[i]);
      }
    }
  }

  /** Only directories are created implicitly. */
  predicate FileOk(f: File) {
    f.snap.isImplicit ==> f.snap.isDir
  }

  // ---------------------------------------------------------------- what one entry does to a run

  /** What a run has come to: the records listed, what failed entries have left behind them, the
      destination, and the position the writer believes to be at. */
  datatype Progress = Progress(log: seq<Record>, tail: bytes, dest: bytes, at: int)

  /** The destination holds the records, each at the offset its header names, and behind them what
      failed entries have left; and the write position is known. */
  ghost predicate InPlace(p: Progress) {
    LogOk(p.log) && p.dest == Local(p.log) + p.tail && p.at == |p.dest|
  }

  /** What `WriteFile` has done when it returns no error: one record more, of this file.  If nothing was
      wrong before, the record is in its place, and only the position can be wrong.  In any case its
      header names the position, and without seeking its bytes are appended. */
  ghost predicate Added(p: Progress, q: Progress, f: File, isSeeker: bool, pipe: Pipeline) {
    && Extends(p.log, q.log, f, isSeeker, pipe) && q.log[|p.log|].junk == p.tail && q.tail == []
    && |q.dest| - q.at == |p.dest| - p.at + Uncounted(f, isSeeker, pipe)
    && (Tractable(f, isSeeker) ==> p.at <= q.at)
    && (InPlace(p) ==> LogOk(q.log) && q.dest == Local(q.log))
    && q.log[|p.log|].snap.offset == p.at && (!isSeeker ==> q.dest == p.dest + RecordBytes(q.log[|p.log|]))
  }

  /** What it has done when it returns an error: nothing is listed, and what the entry has left stands
      at the end of the destination, where the position does not count all of it. */
  ghost predicate Abandoned(p: Progress, q: Progress, f: File, isSeeker: bool, pipe: Pipeline) {
    && q.log == p.log && q.tail == p.tail + Leftover(f, p.at, isSeeker, pipe)
    && q.dest == p.dest + Leftover(f, p.at, isSeeker, pipe)
    && q.at == p.at + |Leftover(f, p.at, isSeeker, pipe)| - Uncounted(f, isSeeker, pipe)
    && (Tractable(f, isSeeker) ==> p.at <= q.at)
    && (InPlace(p) && Uncounted(f, isSeeker, pipe) == 0 ==> InPlace(q))
  }

  /** What `WriteFile` has done: nothing for a directory that is left out, and otherwise one of the two,
      with the error of the file; after a panic nothing is said. */
  ghost predicate FileDone(p: Progress, q: Progress, f: File, implicitToo: bool, isSeeker: bool, pipe: Pipeline,
                           err: Option<Error>)
  {
    if f.snap.isImplicit && !implicitToo then err.None? && q == p
    else if err.None? then Failure(f, isSeeker, pipe).None? && Added(p, q, f, isSeeker, pipe)
    else err.value == NilMap || (err == Failure(f, isSeeker, pipe) && Abandoned(p, q, f, isSeeker, pipe))
  }

  lemma AbandonedOk(p: Progress, q: Progress, f: File, isSeeker: bool, pipe: Pipeline)
    requires Failure(f, isSeeker, pipe).Some?
    requires q.log == p.log && q.tail == p.tail + Leftover(f, p.at, isSeeker, pipe)
    requires q.dest == p.dest + Leftover(f, p.at, isSeeker, pipe)
    requires q.at == p.at + |Leftover(f, p.at, isSeeker, pipe)| - Uncounted(f, isSeeker, pipe)
    ensures Abandoned(p, q, f, isSeeker, pipe)
  {
    if Tractable(f, isSeeker) {
      LeftoverCounted(f, p.at, isSeeker, pipe);
    }
    Associate(Local(p.log), p.tail, Leftover(f, p.at, isSeeker, pipe));
  }

  lemma LeftoverCounted(f: File, offset: int, isSeeker: bool, pipe: Pipeline)
    requires Tractable(f, isSeeker) && Failure(f, isSeeker, pipe).Some?
    ensures Uncounted(f, isSeeker, pipe) <= |Leftover(f, offset, isSeeker, pipe)|
  {
    OffsetIrrelevant(f, offset, isSeeker, pipe);
    if !f.snap.isDir && Streams(f, isSeeker) {
      FailedSize(f, isSeeker, pipe);
    }
  }

  /** Nor does it take back more than the data of a streamed entry that has failed. */
  lemma FailedSize(f: File, isSeeker: bool, pipe: Pipeline)
    requires Tractable(f, isSeeker) && !f.snap.isDir && Streams(f, isSeeker) && Failure(f, isSeeker, pipe).Some?
    ensures Uncounted(f, isSeeker, pipe) <= |EntryOf(f, 0, isSeeker, pipe).encoding.out|
  {
    EncodeMeaning(StreamSnap(Prepared(f).(offset := 0), isSeeker), f.source, pipe);
  }

  lemma AddedOk(p: Progress, q: Progress, f: File, isSeeker: bool, pipe: Pipeline,
                r: Snap, local: LocalHeader, payload: bytes, descriptor: bytes)
    requires var size := |EncodeLocal(local)| + |descriptor|;
             && |q.dest| == |p.dest| + size + |payload| && q.at == p.at + size + (if f.snap.isDir then 0 else r.csize)
    requires !isSeeker || p.at == |p.dest| ==> q.dest == p.dest + (EncodeLocal(local) + payload + descriptor)
    requires EntryOf(f, r.offset, isSeeker, pipe) == Entry(Encoding(payload, r, None), local, descriptor)
             && r.offset == p.at
    requires |q.log| == |p.log| + 1 && q.log[..|p.log|] == p.log && q.log[|p.log|].junk == p.tail && q.tail == []
    requires Holds(q.log[|p.log|], r, local, payload, descriptor)
    requires Local(q.log) == Local(p.log) + (p.tail + (EncodeLocal(local) + payload + descriptor))
    requires LogOk(p.log) && p.at == |Local(p.log)| + |p.tail| ==> LogOk(q.log)
    ensures Added(p, q, f, isSeeker, pipe)
  {
    WrittenOk(f, isSeeker, pipe, r, local, payload, descriptor);
    SizeWritten(f, isSeeker, pipe, r, local, payload, descriptor);
    Associate(Local(p.log), p.tail, EncodeLocal(local) + payload + descriptor);
  }

  /** What `HandleResult` has done with a result: one record more, in its place. */
  ghost predicate Handled(p: Progress, q: Progress, r: Snap, data: bytes) {
    && |q.log| == |p.log| + 1 && q.log[..|p.log|] == p.log && q.log[|p.log|].junk == []
    && Holds(q.log[|p.log|], r, LocalOf(r), data, []) && InPlace(q) && q.tail == []
  }

  lemma HandledOk(p: Progress, q: Progress, section: bytes)
    requires InPlace(p) && p.tail == [] && q.dest == p.dest + section && q.at == |q.dest|
    requires q.tail == [] && LogOk(q.log) && Local(q.log) == Local(p.log) + (p.tail + section)
    ensures InPlace(q)
  {
    NoTail(Local(p.log));
    NoTail(Local(q.log));
    assert [] + section == section;
  }

  /** Two archives that differ in the position they name. */
  lemma EndShifted(body: bytes, log: seq<Record>, a: nat, b: nat, comment: bytes)
    requires a < 0x8000_0000_0000_0000 && b < 0x8000_0000_0000_0000
    ensures var (n, d) := (|log|, Central(log));
            body + d + EndBytes(n, |d|, a, comment) == body + d + EndBytes(n, |d|, b, comment) <==> a == b
  {
    var (n, d) := (|log|, Central(log));
    var (x, y) := (EndBytes(n, |d|, a, comment), EndBytes(n, |d|, b, comment));
    if body + d + x == body + d + y {
      assert (body + d + x)[|body + d|..] == x && (body + d + y)[|body + d|..] == y;
      EndTellsOffset(n, |d|, a, b, comment);
    }
  }

  /** The state of a run after the first `files`. */
  ghost predicate Reached(p: Progress, files: seq<File>, implicitToo: bool, isSeeker: bool, pipe: Pipeline) {
    && LogFor(Successful(files, implicitToo, isSeeker, pipe), isSeeker, pipe, p.log)
    && p.at >= 0 && |p.dest| - p.at == Lag(files, isSeeker, pipe) && (isSeeker ==> p.at <= |p.dest|)
    && (Steady(files, isSeeker, pipe) ==> InPlace(p))
    && (Failures(files, isSeeker, pipe) == [] ==> p.tail == [] && NoJunk(p.log))
  }

  lemma ReachedStart(p: Progress, implicitToo: bool, isSeeker: bool, pipe: Pipeline)
    requires InPlace(p) && p.log == [] && p.tail == []
    ensures Reached(p, [], implicitToo, isSeeker, pipe)
  {
  }

  lemma ReachedSkip(p: Progress, files: seq<File>, i: nat, implicitToo: bool, isSeeker: bool, pipe: Pipeline)
    requires i < |files| && Reached(p, files[..i], implicitToo, isSeeker, pipe) && FileOk(files[i])
    requires files[i].snap.isImplicit && !implicitToo
    ensures Reached(p, files[..i + 1], implicitToo, isSeeker, pipe) && Failure(files[i], isSeeker, pipe).None?
  {
    RunNext(files, i, implicitToo, isSeeker, pipe);
  }

  lemma ReachedAdded(p: Progress, q: Progress, files: seq<File>, i: nat, implicitToo: bool, isSeeker: bool,
                     pipe: Pipeline)
    requires i < |files| && Reached(p, files[..i], implicitToo, isSeeker, pipe) && Tractable(files[i], isSeeker)
    requires !(files[i].snap.isImplicit && !implicitToo) && Failure(files[i], isSeeker, pipe).None?
    requires Added(p, q, files[i], isSeeker, pipe)
    ensures Reached(q, files[..i + 1], implicitToo, isSeeker, pipe)
  {
    RunNext(files, i, implicitToo, isSeeker, pipe);
    LogForNext(Successful(files[..i], implicitToo, isSeeker, pipe), files[i], isSeeker, pipe, p.log, q.log);
    NoJunkNext(p.log, q.log);
    NoTail(Local(q.log));
    if isSeeker {
      UncountedIff(files[i], isSeeker, pipe);
    }
  }

  lemma ReachedAbandoned(p: Progress, q: Progress, files: seq<File>, i: nat, implicitToo: bool, isSeeker: bool,
                         pipe: Pipeline)
    requires i < |files| && Reached(p, files[..i], implicitToo, isSeeker, pipe)
    requires Tractable(files[i], isSeeker)
    requires Failure(files[i], isSeeker, pipe).Some? && Abandoned(p, q, files[i], isSeeker, pipe)
    ensures Reached(q, files[..i + 1], implicitToo, isSeeker, pipe)
  {
    RunNext(files, i, implicitToo, isSeeker, pipe);
    if isSeeker {
      UncountedIff(files[i], isSeeker, pipe);
    }
  }

  lemma ReachedNext(p: Progress, q: Progress, files: seq<File>, i: nat, implicitToo: bool, isSeeker: bool,
                    pipe: Pipeline,
                    err: Option<Error>)
    requires i < |files| && Reached(p, files[..i], implicitToo, isSeeker, pipe)
    requires FileOk(files[i]) && Tractable(files[i], isSeeker)
    requires FileDone(p, q, files[i], implicitToo, isSeeker, pipe, err)
    ensures err != Some(NilMap) ==>
            Reached(q, files[..i + 1], implicitToo, isSeeker, pipe) && err == Failure(files[i], isSeeker, pipe)
  {
    if files[i].snap.isImplicit && !implicitToo {
      ReachedSkip(p, files, i, implicitToo, isSeeker, pipe);
    } else if err.None? {
      ReachedAdded(p, q, files, i, implicitToo, isSeeker, pipe);
    } else if err.value != NilMap {
      ReachedAbandoned(p, q, files, i, implicitToo, isSeeker, pipe);
    }
  }

  // ---------------------------------------------------------------- patching a local header

  /** Bytes 14 to 26 of an encoded header are the CRC and the sizes. */
  lemma PatchAt(pre: bytes, h: LocalHeader, post: bytes, s: Snap)
    ensures |EncodeLocal(h)| == |EncodeLocal(Patched(h, s))| >= 30
    ensures var d := pre + (EncodeLocal(h) + post);
            (d[..|pre| + 14] + (LE(4, s.crc) + LE(4, ToU32(s.csize)) + LE(4, ToU32(s.usize))) + d[|pre| + 26..]
             == pre + (EncodeLocal(Patched(h, s)) + post))
  {
    var g := Patched(h, s);
    LocalOffsets(h, 6);
    SamePrefix(h, g, 6);
    HeaderParts(h, post);
    HeaderParts(g, post);
    Splice(pre, LocalPrefix(h, 6), SizeFields(h), SizeFields(g),
           LE(2, h.nameLen) + LE(2, h.extraLen) + (h.name + h.extra + post));
  }

  function SizeFields(h: LocalHeader): (b: bytes)
    ensures |b| == 12
  {
    LE(4, h.crc) + LE(4, h.csize) + LE(4, h.usize)
  }

  lemma HeaderParts(h: LocalHeader, post: bytes)
    ensures EncodeLocal(h) + post
         == LocalPrefix(h, 6) + SizeFields(h) + (LE(2, h.nameLen) + LE(2, h.extraLen) + (h.name + h.extra + post))
  {
    FixedParts(h);
    RegroupTail(LocalPrefix(h, 6), SizeFields(h), LE(2, h.nameLen) + LE(2, h.extraLen), h.name, h.extra, post);
  }

  lemma RegroupTail(p: bytes, a: bytes, b: bytes, c: bytes, d: bytes, e: bytes)
    ensures p + a + b + c + d + e == p + a + (b + (c + d + e))
  {
  }

  lemma {:induction false} SamePrefix(h: LocalHeader, g: LocalHeader, k: nat)
    requires k <= 6 && g == h.(crc := g.crc, csize := g.csize, usize := g.usize)
    ensures LocalPrefix(h, k) == LocalPrefix(g, k)
  {
    if k > 0 {
      SamePrefix(h, g, k - 1);
    }
  }

  lemma FixedParts(h: LocalHeader)
    ensures LocalFixed(h) == LocalPrefix(h, 6) + SizeFields(h) + (LE(2, h.nameLen) + LE(2, h.extraLen))
  {
    assert LocalPrefix(h, 7) == LocalPrefix(h, 6) + LE(4, h.crc);
    assert LocalPrefix(h, 8) == LocalPrefix(h, 7) + LE(4, h.csize);
    assert LocalPrefix(h, 9) == LocalPrefix(h, 8) + LE(4, h.usize);
    assert LocalPrefix(h, 10) == LocalPrefix(h, 9) + LE(2, h.nameLen);
    assert LocalPrefix(h, 11) == LocalPrefix(h, 10) + LE(2, h.extraLen);
    Regroup(LocalPrefix(h, 6), LE(4, h.crc), LE(4, h.csize), LE(4, h.usize), LE(2, h.nameLen), LE(2, h.extraLen));
  }

  lemma Regroup(p: bytes, a: bytes, b: bytes, c: bytes, d: bytes, e: bytes)
    ensures p + a + b + c + d + e == p + (a + b + c) + (d + e)
  {
  }

  lemma NoData(a: bytes)
    ensures a + [] + [] == a
  {
  }

  lemma NoTail(a: bytes)
    ensures a + [] == a
  {
  }

  lemma PatchedLength(h: LocalHeader, s: Snap)
    ensures |EncodeLocal(Patched(h, s))| == |EncodeLocal(h)| >= 30
  {
  }

  lemma NoDescriptor(a: bytes, b: bytes)
    ensures a + b + [] == a + b
  {
  }

  lemma Splice(pre: bytes, a: bytes, b: bytes, b': bytes, c: bytes)
    requires |b| == |b'|
    ensures var d := pre + (a + b + c); d[..|pre| + |a|] + b' + d[|pre| + |a| + |b|..] == pre + (a + b' + c)
  {
  }

  // ---------------------------------------------------------------- the writer

  class ZipWriter {
    const pipe: Pipeline
    const isSeeker: bool
    const includeImplicitDirs: bool
    const comment: bytes

    var dest: bytes
    var entriesNum: nat
    var centralDirSize: nat
    var headerOffset: int
    var centralDir: bytes
    var encodeBuf: array<byte>
    ghost var log: seq<Record>
    ghost var tail: bytes

    /** The collected directory lists the written records. */
    ghost predicate DirectoryOk()
      reads this
    {
      encodeBuf.Length >= 256 && centralDir == Central(log) && centralDirSize == |centralDir| && entriesNum == |log|
    }

    ghost function Now(): Progress
      reads this
    {
      Progress(log, tail, dest, headerOffset)
    }

    ghost predicate Valid()
      reads this
    {
      DirectoryOk() && InPlace(Now())
    }

    constructor (pipe: Pipeline, isSeeker: bool, includeImplicitDirs: bool, comment: bytes)
      ensures Valid() && log == [] && tail == [] && fresh(encodeBuf)
      ensures this.pipe == pipe && this.isSeeker == isSeeker
      ensures this.includeImplicitDirs == includeImplicitDirs && this.comment == comment
    {
      this.pipe, this.isSeeker, this.includeImplicitDirs, this.comment := pipe, isSeeker, includeImplicitDirs, comment;
      dest, entriesNum, centralDirSize, headerOffset, centralDir := [], 0, 0, 0, [];
      encodeBuf := new byte[256](_ => 0);
      log, tail := [], [];
    }

    predicate Skips(s: Snap) {
      s.isImplicit && !includeImplicitDirs
    }

    /** Encodes into the reused buffer, which always has room for the fixed part. */
    method EncodeLocalHeader(h: LocalHeader) returns (data: bytes)
      requires encodeBuf.Length >= 256
      modifies this`encodeBuf, encodeBuf
      ensures encodeBuf.Length >= 256 && (encodeBuf == old(encodeBuf) || fresh(encodeBuf))
      ensures data == EncodeLocal(h)
    {
      assert encodeBuf[..0] == [];
      encodeBuf := AppendLocal(h, encodeBuf, 0);
      assert [] + EncodeLocal(h) == EncodeLocal(h);
      data := encodeBuf[..30 + |h.name| + |h.extra|];
    }

    method EncodeCentralHeader(h: CentralHeader) returns (data: bytes)
      requires encodeBuf.Length >= 256
      modifies this`encodeBuf, encodeBuf
      ensures encodeBuf.Length >= 256 && (encodeBuf == old(encodeBuf) || fresh(encodeBuf))
      ensures data == EncodeCentral(h)
    {
      assert encodeBuf[..0] == [];
      encodeBuf := AppendCentral(h, encodeBuf, 0);
      assert [] + EncodeCentral(h) == EncodeCentral(h);
      data := encodeBuf[..46 + |h.name| + |h.extra| + |h.comment|];
    }

    method WriteFileHeader(s: Snap) returns (r: Snap)
      requires encodeBuf.Length >= 256
      modifies this`dest, this`headerOffset, this`encodeBuf, encodeBuf
      ensures encodeBuf.Length >= 256 && (encodeBuf == old(encodeBuf) || fresh(encodeBuf))
      ensures Skips(s) ==> r == s && dest == old(dest) && headerOffset == old(headerOffset)
      ensures !Skips(s) ==>
                && r == s.(offset := old(headerOffset))
                && dest == old(dest) + EncodeLocal(LocalOf(r))
                && headerOffset == old(headerOffset) + |EncodeLocal(LocalOf(r))|
    {
      if Skips(s) {
        return s;
      }
      r := s.(offset := headerOffset);
      var data := EncodeLocalHeader(LocalOf(r));
      dest := dest + data;
      headerOffset := headerOffset + |data|;
    }

    /** Appends the central header of an entry, unless an extra-field block would have to be added to an
        unparsed extra field.  If the entry stands at the end of the local section, it is in its place. */
    method AddCentralDirEntry(s: Snap, ghost local: LocalHeader, ghost payload: bytes, ghost descriptor: bytes)
      returns (err: Option<Error>)
      requires DirectoryOk() && (!Skips(s) ==> NamesOk(s, local))
      modifies this`encodeBuf, this`centralDir, this`centralDirSize, this`entriesNum, this`log, this`tail, encodeBuf
      ensures DirectoryOk() && (encodeBuf == old(encodeBuf) || fresh(encodeBuf))
      ensures err == (if !Skips(s) && s.extra.None? && AddsBlock(s) then Some(NilMap) else None)
      ensures Skips(s) || err.Some? ==> log == old(log) && tail == old(tail)
      ensures !Skips(s) && err.None? ==>
                && tail == [] && |log| == |old(log)| + 1 && log[..|old(log)|] == old(log)
                && log[|old(log)|].junk == old(tail) && Holds(log[|old(log)|], s, local, payload, descriptor)
                && Local(log) == Local(old(log)) + (old(tail) + (EncodeLocal(local) + payload + descriptor))
                && (old(LogOk(log)) && s.offset == |old(Local(log))| + |old(tail)| ==> LogOk(log))
    {
      if Skips(s) {
        return None;
      }
      if s.extra.None? && AddsBlock(s) {
        return Some(NilMap);
      }
      var extra := SerializeExtra(s);
      ghost var r := Record(tail, s, local, payload, descriptor, CentralOf(s, extra));
      var data := EncodeCentralHeader(CentralOf(s, extra));
      LogAppend(log, r);
      AppendEntry(data, log + [r]);
      return None;
    }

    method AppendEntry(data: bytes, ghost next: seq<Record>)
      requires DirectoryOk() && Central(next) == Central(log) + data && |next| == |log| + 1
      modifies this`centralDir, this`centralDirSize, this`entriesNum, this`log, this`tail
      ensures DirectoryOk() && log == next && tail == []
    {
      centralDir := centralDir + data;
      centralDirSize := centralDirSize + |data|;
      entriesNum := entriesNum + 1;
      log, tail := next, [];
    }

    method SerializeExtra(s: Snap) returns (extra: bytes)
      requires s.extra.Some? || !AddsBlock(s)
      ensures CentralExtra(s, extra)
    {
      if s.extra.None? {
        return s.extraRaw;
      }
      ghost var keys;
      extra, keys := BuildExtraFieldBytes(WithBlocks(s, s.extra.value));
    }

    /** Seeks back to the CRC of the header, writes 12 bytes and seeks to the end.  When the position was
        right, that patches the header. */
    method UpdateLocalHeader(s: Snap, ghost pre: bytes, ghost h: LocalHeader, ghost post: bytes)
      requires 0 <= s.offset && s.offset + 26 <= |dest|
      modifies this`dest
      ensures |dest| == old(|dest|)
      ensures s.offset == |pre| && old(dest) == pre + (EncodeLocal(h) + post) ==>
              dest == pre + (EncodeLocal(Patched(h, s)) + post)
    {
      PatchAt(pre, h, post, s);
      var buf := LE(4, s.crc) + LE(4, ToU32(s.csize)) + LE(4, ToU32(s.usize));
      dest := dest[..s.offset + 14] + buf + dest[s.offset + 26..];
    }

    /** The first half of `writeStream`: the header with what is known, then the data. */
    method StreamData(s: Snap, source: Source) returns (t: Snap, e: Encoding, ghost head: bytes)
      requires encodeBuf.Length >= 256 && !Skips(s)
      modifies this`dest, this`headerOffset, this`encodeBuf, encodeBuf
      ensures encodeBuf.Length >= 256 && (encodeBuf == old(encodeBuf) || fresh(encodeBuf))
      ensures t == StreamSnap(s.(offset := old(headerOffset)), isSeeker) && e == Encode(t, source, pipe)
      ensures head == EncodeLocal(LocalOf(t)) && dest == old(dest) + (head + e.out)
      ensures headerOffset == old(headerOffset) + |head|
    {
      t := if isSeeker then s else s.(flags := On(s.flags, DESCRIPTOR));
      if t.config.scheme == STORE {
        t := t.(csize := t.usize);
      }
      t := WriteFileHeader(t);
      head := EncodeLocal(LocalOf(t));
      e := Encode(t, source, pipe);
      Associate(old(dest), head, e.out);
      dest := dest + e.out;
    }

    method WriteDescriptor(r: Snap) returns (ghost dd: bytes)
      modifies this`dest, this`headerOffset
      ensures dd == EncodeDescriptor(r.crc, r.csize, r.usize)
      ensures dest == old(dest) + dd && headerOffset == old(headerOffset) + |dd|
    {
      var d := EncodeDescriptor(r.crc, r.csize, r.usize);
      dest := dest + d;
      headerOffset := headerOffset + |d|;
      dd := d;
    }

    /** Header first, then the data, and then either the patched sizes or a data descriptor.  An error
        leaves the header and the data so far in the destination. */
    method WriteStream(s: Snap, source: Source)
      returns (r: Snap, err: Option<Error>, ghost local: LocalHeader, ghost payload: bytes, ghost descriptor: bytes)
      requires encodeBuf.Length >= 256 && 0 <= headerOffset && (isSeeker ==> headerOffset <= |dest|) && !Skips(s)
      modifies this`dest, this`headerOffset, this`encodeBuf, encodeBuf
      ensures encodeBuf.Length >= 256 && (encodeBuf == old(encodeBuf) || fresh(encodeBuf))
      ensures r.offset == old(headerOffset) && r.isImplicit == s.isImplicit
      ensures Streamed(s.(offset := old(headerOffset)), isSeeker, source, pipe) ==
              Entry(Encoding(payload, r, err), local, descriptor)
      ensures err.Some? ==>
                var head := EncodeLocal(LocalOf(StreamSnap(s.(offset := old(headerOffset)), isSeeker)));
                && dest == old(dest) + (head + payload)
                && headerOffset == old(headerOffset) + |head| + (if err.value == TooLarge then r.csize else 0)
      ensures err.None? ==>
                && |dest| == |old(dest)| + |EncodeLocal(local)| + |payload| + |descriptor|
                && headerOffset == old(headerOffset) + |EncodeLocal(local)| + r.csize + |descriptor|
                && (!isSeeker || old(headerOffset) == |old(dest)| ==>
                    dest == old(dest) + (EncodeLocal(local) + payload + descriptor))
    {
      ghost var pre := dest;
      var t, e;
      ghost var head;
      t, e, head := StreamData(s, source);
      EncodeMeaning(t, source, pipe);
      PatchedLength(LocalOf(t), e.snap);
      r, payload := e.snap, e.out;
      local := if isSeeker then Patched(LocalOf(t), r) else LocalOf(t);
      descriptor := if isSeeker then [] else EncodeDescriptor(r.crc, r.csize, r.usize);
      if e.err.Some? {
        return r, e.err, local, payload, descriptor;
      }
      headerOffset := headerOffset + r.csize;
      if isSeeker {
        if r.csize > MAX_UINT32 || r.usize > MAX_UINT32 {
          return r, Some(TooLarge), local, payload, descriptor;
        }
        UpdateLocalHeader(r, pre, LocalOf(t), payload);
        NoDescriptor(EncodeLocal(local), payload);
        return r, None, local, payload, descriptor;
      }
      ghost var dd := WriteDescriptor(r);
      Associate(pre, head + payload, descriptor);
      return r, None, local, payload, descriptor;
    }

    /** Data first, to a temporary file; then the header with the sizes found, and the copy.  An error
        leaves nothing. */
    method WriteTemp(s: Snap, source: Source) returns (r: Snap, err: Option<Error>, ghost payload: bytes)
      requires encodeBuf.Length >= 256 && !Skips(s)
      modifies this`dest, this`headerOffset, this`encodeBuf, encodeBuf
      ensures encodeBuf.Length >= 256 && (encodeBuf == old(encodeBuf) || fresh(encodeBuf))
      ensures Encode(s.(offset := old(headerOffset)), source, pipe) == Encoding(payload, r, err)
      ensures r.offset == old(headerOffset) && r.isImplicit == s.isImplicit
      ensures err.Some? ==> dest == old(dest) && headerOffset == old(headerOffset)
      ensures err.None? ==>
                && dest == old(dest) + (EncodeLocal(LocalOf(r)) + payload)
                && headerOffset == old(headerOffset) + |EncodeLocal(LocalOf(r))| + r.csize
    {
      var temp := Encode(s, source, pipe);
      payload := temp.out;
      EncodeMeaning(s, source, pipe);
      EncodeShift(s, headerOffset, source, pipe);
      if temp.err.Some? {
        return temp.snap.(offset := headerOffset), temp.err, payload;
      }
      r := WriteFileHeader(temp.snap);
      Associate(old(dest), EncodeLocal(LocalOf(r)), temp.out);
      dest := dest + temp.out;
      headerOffset := headerOffset + r.csize;
      err := None;
    }

    /** A directory is a header only. */
    method WriteDir(s: Snap) returns (r: Snap, ghost local: LocalHeader)
      requires encodeBuf.Length >= 256 && !Skips(s)
      modifies this`dest, this`headerOffset, this`encodeBuf, encodeBuf
      ensures encodeBuf.Length >= 256 && (encodeBuf == old(encodeBuf) || fresh(encodeBuf))
      ensures r == s.(offset := old(headerOffset)) && local == LocalOf(r)
      ensures dest == old(dest) + (EncodeLocal(local) + [] + [])
              && headerOffset == old(headerOffset) + |EncodeLocal(local)|
    {
      r := WriteFileHeader(s);
      local := LocalOf(r);
      NoData(EncodeLocal(local));
    }

    /** The first part of `WriteFile`: the local section, written in one of three ways. */
    method WriteData(f: File)
      returns (r: Snap, err: Option<Error>, ghost local: LocalHeader, ghost payload: bytes, ghost descriptor: bytes)
      requires encodeBuf.Length >= 256 && 0 <= headerOffset && (isSeeker ==> headerOffset <= |dest|) && !Skips(f.snap)
      modifies this`dest, this`headerOffset, this`encodeBuf, encodeBuf
      ensures encodeBuf.Length >= 256 && (encodeBuf == old(encodeBuf) || fresh(encodeBuf))
      ensures r.isImplicit == f.snap.isImplicit && r.offset == old(headerOffset) && err == Failure(f, isSeeker, pipe)
      ensures EntryOf(f, r.offset, isSeeker, pipe) == Entry(Encoding(payload, r, err), local, descriptor)
      ensures err.Some? ==>
                && dest == old(dest) + Leftover(f, r.offset, isSeeker, pipe)
                && headerOffset ==
                   old(headerOffset) + |Leftover(f, r.offset, isSeeker, pipe)| - Uncounted(f, isSeeker, pipe)
      ensures err.None? ==>
                && |dest| == |old(dest)| + |EncodeLocal(local)| + |payload| + |descriptor|
                && headerOffset ==
                   old(headerOffset) + |EncodeLocal(local)| + (if f.snap.isDir then 0 else r.csize) + |descriptor|
                && (!isSeeker || old(headerOffset) == |old(dest)| ==>
                    dest == old(dest) + (EncodeLocal(local) + payload + descriptor))
    {
      OffsetIrrelevant(f, headerOffset, isSeeker, pipe);
      r := Prepared(f);
      local, payload, descriptor := LocalOf(r), [], [];
      if r.isDir {
        r, local := WriteDir(r);
        err := None;
      } else if Streams(f, isSeeker) {
        r, err, local, payload, descriptor := WriteStream(r, f.source);
      } else {
        r, err, payload := WriteTemp(r, f.source);
        local := LocalOf(r);
        NoDescriptor(EncodeLocal(local), payload);
      }
    }

    /** The second part: the entry is listed. */
    method ListEntry(f: File, s: Snap, ghost local: LocalHeader, ghost payload: bytes, ghost descriptor: bytes,
                     ghost p: Progress)
      returns (err: Option<Error>)
      requires DirectoryOk() && s.isImplicit == f.snap.isImplicit && !Skips(f.snap)
      requires EntryOf(f, s.offset, isSeeker, pipe) == Entry(Encoding(payload, s, None), local, descriptor)
      requires p.log == log && p.tail == tail && s.offset == p.at
      requires var size := |EncodeLocal(local)| + |descriptor|;
               && |dest| == |p.dest| + size + |payload|
                  && headerOffset == p.at + size + (if f.snap.isDir then 0 else s.csize)
      requires !isSeeker || p.at == |p.dest| ==> dest == p.dest + (EncodeLocal(local) + payload + descriptor)
      modifies this`encodeBuf, this`centralDir, this`centralDirSize, this`entriesNum, this`log, this`tail, encodeBuf
      ensures DirectoryOk() && (encodeBuf == old(encodeBuf) || fresh(encodeBuf))
      ensures err.Some? ==> err.value == NilMap
      ensures err.None? ==> Added(p, Now(), f, isSeeker, pipe)
    {
      NamesWritten(f, isSeeker, pipe, s, local, payload, descriptor);
      err := AddCentralDirEntry(s, local, payload, descriptor);
      if err.None? {
        AddedOk(p, Now(), f, isSeeker, pipe, s, local, payload, descriptor);
      }
    }

    /** `WriteFile`, also when an earlier failure has shifted the position. */
    method WriteFile(f: File) returns (err: Option<Error>)
      requires DirectoryOk() && 0 <= headerOffset && (isSeeker ==> headerOffset <= |dest|) && FileOk(f)
      modifies this`dest, this`headerOffset, this`encodeBuf, this`centralDir, this`centralDirSize, this`entriesNum,
               this`log, this`tail, encodeBuf
      ensures DirectoryOk() && (encodeBuf == old(encodeBuf) || fresh(encodeBuf))
      ensures FileDone(old(Now()), Now(), f, includeImplicitDirs, isSeeker, pipe, err)
    {
      if Skips(f.snap) {
        return None;  // a directory that gets neither a header nor an entry
      }
      err := WriteKept(f);
    }

    method WriteKept(f: File) returns (err: Option<Error>)
      requires DirectoryOk() && 0 <= headerOffset && (isSeeker ==> headerOffset <= |dest|) && !Skips(f.snap)
      modifies this`dest, this`headerOffset, this`encodeBuf, this`centralDir, this`centralDirSize, this`entriesNum,
               this`log, this`tail, encodeBuf
      ensures DirectoryOk() && (encodeBuf == old(encodeBuf) || fresh(encodeBuf))
      ensures err != Some(NilMap) ==> err == Failure(f, isSeeker, pipe)
      ensures err.None? ==> Added(old(Now()), Now(), f, isSeeker, pipe)
      ensures err.Some? && err.value != NilMap ==> Abandoned(old(Now()), Now(), f, isSeeker, pipe)
    {
      ghost var before := Now();
      var snap;
      ghost var local, payload, descriptor;
      snap, err, local, payload, descriptor := WriteData(f);
      if err.Some? {
        Abandon(f, before);
      } else {
        err := ListEntry(f, snap, local, payload, descriptor, before);
      }
    }

    /** Nothing is listed; the bytes in the destination are remembered for the proof. */
    ghost method Abandon(f: File, before: Progress)
      requires DirectoryOk() && Failure(f, isSeeker, pipe).Some? && log == before.log && tail == before.tail
      requires dest == before.dest + Leftover(f, before.at, isSeeker, pipe)
      requires headerOffset == before.at + |Leftover(f, before.at, isSeeker, pipe)| - Uncounted(f, isSeeker, pipe)
      modifies this`tail
      ensures DirectoryOk() && Abandoned(before, Now(), f, isSeeker, pipe)
    {
      tail := tail + Leftover(f, before.at, isSeeker, pipe);
      AbandonedOk(before, Now(), f, isSeeker, pipe);
    }

    /** `writeCompressedFile`: the position advances by the bytes copied, so it stays right whatever the
        snapshot says. */
    method WriteCompressedFile(s: Snap, buffer: bytes) returns (r: Snap)
      requires encodeBuf.Length >= 256 && headerOffset == |dest| && (Skips(s) ==> s.usize == 0)
      modifies this`dest, this`headerOffset, this`encodeBuf, encodeBuf
      ensures encodeBuf.Length >= 256 && (encodeBuf == old(encodeBuf) || fresh(encodeBuf))
      ensures headerOffset == |dest| && r.isImplicit == s.isImplicit
      ensures Skips(s) ==> r == s && dest == old(dest)
      ensures !Skips(s) ==>
                && r == s.(offset := old(headerOffset))
                && NamesOk(r, LocalOf(r))
                && dest == old(dest) + (EncodeLocal(LocalOf(r)) + (if s.usize == 0 then [] else buffer) + [])
    {
      r := WriteFileHeader(s);
      ghost var head := EncodeLocal(LocalOf(r));
      NoDescriptor(head, if s.usize == 0 then [] else buffer);
      if s.usize == 0 {
        NoDescriptor(head, []);
        return;
      }
      Associate(old(dest), head, buffer);
      dest := dest + buffer;
      headerOffset := headerOffset + |buffer|;
    }

    /** `handleResult`: the local section from the buffer, then the directory. */
    method HandleResult(s: Snap, buffer: bytes) returns (err: Option<Error>)
      requires Valid() && tail == [] && (Skips(s) ==> s.usize == 0)
      modifies this`dest, this`headerOffset, this`encodeBuf, this`centralDir, this`centralDirSize, this`entriesNum
      modifies this`log, this`tail, encodeBuf
      ensures DirectoryOk() && (encodeBuf == old(encodeBuf) || fresh(encodeBuf))
      ensures err.Some? ==> log == old(log)
      ensures err.None? && Skips(s) ==> Now() == old(Now())
      ensures err.None? && !Skips(s) ==>
                Handled(old(Now()), Now(), s.(offset := old(headerOffset)), if s.usize == 0 then [] else buffer)
    {
      ghost var before := Now();
      var r := WriteCompressedFile(s, buffer);
      err := ListResult(r, if s.usize == 0 then [] else buffer, before);
    }

    method ListResult(r: Snap, ghost data: bytes, ghost p: Progress) returns (err: Option<Error>)
      requires DirectoryOk() && log == p.log && tail == p.tail == [] && InPlace(p)
      requires if Skips(r) then dest == p.dest && headerOffset == p.at
               else
                 && NamesOk(r, LocalOf(r)) && r.offset == p.at && headerOffset == |dest|
                 && dest == p.dest + (EncodeLocal(LocalOf(r)) + data + [])
      modifies this`encodeBuf, this`centralDir, this`centralDirSize, this`entriesNum, this`log, this`tail, encodeBuf
      ensures DirectoryOk() && (encodeBuf == old(encodeBuf) || fresh(encodeBuf))
      ensures err.Some? ==> log == old(log)
      ensures err.None? && Skips(r) ==> Now() == p
      ensures err.None? && !Skips(r) ==> Handled(p, Now(), r, data)
    {
      err := AddCentralDirEntry(r, LocalOf(r), data, []);
      if err.None? && !Skips(r) {
        HandledOk(p, Now(), EncodeLocal(LocalOf(r)) + data + []);
      }
    }

    /** `WriteCentralDirAndEndRecords`: the end records take the position for the length of the local
        section. */
    method WriteCentralDirAndEndRecords()
      requires DirectoryOk() && headerOffset >= 0
      modifies this`dest
      ensures dest == old(dest) + Central(log) + EndBytes(|log|, |Central(log)|, headerOffset, comment)
      ensures old(InPlace(Now())) ==> dest == ArchiveBytes(log, tail, comment)
    {
      dest := dest + centralDir;
      WriteEndRecords();
    }

    method WriteEndRecords()
      requires headerOffset >= 0
      modifies this`dest
      ensures dest == old(dest) + EndBytes(entriesNum, centralDirSize, headerOffset, comment)
    {
      ghost var before := dest;
      var a, b: bytes := [], [];
      if ArchiveRequiresZip64(entriesNum, centralDirSize, headerOffset) {
        a := EncodeZip64Eocd(entriesNum, centralDirSize, headerOffset);
        b := EncodeLocator(headerOffset + centralDirSize);
        dest := dest + a;
        dest := dest + b;
      }
      var c := EncodeEocd(entriesNum, centralDirSize, headerOffset, comment);
      dest := dest + c;
      AssociateThree(before, a, b, c);
    }

    /** One file of the loop over all of them. */
    method WriteNext(files: seq<File>, i: nat) returns (err: Option<Error>)
      requires i < |files| && DirectoryOk() && Reached(Now(), files[..i], includeImplicitDirs, isSeeker, pipe)
      requires FileOk(files[i]) && Tractable(files[i], isSeeker)
      modifies this`dest, this`headerOffset, this`encodeBuf, this`centralDir, this`centralDirSize, this`entriesNum,
               this`log, this`tail, encodeBuf
      ensures DirectoryOk() && (encodeBuf == old(encodeBuf) || fresh(encodeBuf))
      ensures err != Some(NilMap) ==>
                Reached(Now(), files[..i + 1], includeImplicitDirs, isSeeker, pipe)
                  && err == Failure(files[i], isSeeker, pipe)
    {
      ghost var before := Now();
      err := WriteFile(files[i]);
      ghost var after := Now();
      ReachedNext(before, after, files, i, includeImplicitDirs, isSeeker, pipe, err);
    }

    /** A sequential run: an error does not end it, and the directory is written in any case.  The
        records are those of the files that did not fail.  The end record says where the directory is
        if and only if the position was right at the end, and every header is where its offset says if
        it was right all the time (`LagIff`); without failures the file holds nothing else. */
    method WriteArchive(files: seq<File>) returns (errs: seq<Error>, panicked: bool, ghost body: bytes)
      requires Valid() && log == [] && tail == []
      requires forall f :: f in files ==> FileOk(f) && Tractable(f, isSeeker)
      modifies this`dest, this`headerOffset, this`encodeBuf, this`centralDir, this`centralDirSize, this`entriesNum,
               this`log, this`tail, encodeBuf
      ensures !panicked ==>
                && errs == Failures(files, isSeeker, pipe)
                && LogFor(Successful(files, includeImplicitDirs, isSeeker, pipe), isSeeker, pipe, log)
                && headerOffset >= 0 && headerOffset == |body| - Lag(files, isSeeker, pipe)
                && dest == body + Central(log) + EndBytes(|log|, |Central(log)|, headerOffset, comment)
      ensures !panicked && Steady(files, isSeeker, pipe) ==>
                LogOk(log) && body == Local(log) + tail && dest == ArchiveBytes(log, tail, comment)
      ensures !panicked && |body| < 0x8000_0000_0000_0000 && headerOffset < 0x8000_0000_0000_0000 ==>
                (dest == body + Central(log) + EndBytes(|log|, |Central(log)|, |body|, comment) <==>
                 Lag(files, isSeeker, pipe) == 0)
      ensures !panicked && errs == [] ==> tail == [] && NoJunk(log)
    {
      errs, panicked := WriteEntries(files);
      body := dest;
      if panicked {
        return;
      }
      WriteCentralDirAndEndRecords();
      if |body| < 0x8000_0000_0000_0000 && headerOffset < 0x8000_0000_0000_0000 {
        EndShifted(body, log, |body|, headerOffset, comment);
      }
    }

    /** The loop over the files. */
    method WriteEntries(files: seq<File>) returns (errs: seq<Error>, panicked: bool)
      requires Valid() && log == [] && tail == []
      requires forall f :: f in files ==> FileOk(f) && Tractable(f, isSeeker)
      modifies this`dest, this`headerOffset, this`encodeBuf, this`centralDir, this`centralDirSize, this`entriesNum,
               this`log, this`tail, encodeBuf
      ensures DirectoryOk()
      ensures !panicked ==>
              Reached(Now(), files, includeImplicitDirs, isSeeker, pipe) && errs == Failures(files, isSeeker, pipe)
    {
      errs, panicked := [], false;
      ReachedStart(Now(), includeImplicitDirs, isSeeker, pipe);
      for i := 0 to |files|
        invariant DirectoryOk() && (encodeBuf == old(encodeBuf) || fresh(encodeBuf))
        invariant Reached(Now(), files[..i], includeImplicitDirs, isSeeker, pipe)
                  && errs == Failures(files[..i], isSeeker, pipe)
      {
        RunNext(files, i, includeImplicitDirs, isSeeker, pipe);
        var err := WriteNext(files, i);
        if err == Some(NilMap) {
          return errs, true;
        }
        if err.Some? {
          errs := errs + [err.value];
        }
      }
      assert files[..|files|] == files;
    }
  }
}
