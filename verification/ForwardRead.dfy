/** Reading the writer's archives from front to back: any mixture of skipping and opening, whether that
    agrees with the directory, and what becomes of the leftovers of failed entries. */
module ForwardRead {
  import opened Wrappers
  import opened Bytes
  import opened Headers
  import opened ExtraField
  import opened EndRecords
  import opened Snapshot
  import opened Repeat
  import opened Stream
  import opened StreamArchive
  import opened Archive
  import opened ParallelArchive
  import W = Writer
  import Z = ZipCrypto

  // ---------------------------------------------------------------- a session: entries skipped or read

  /** What the caller does with an entry before asking for the next one.  How much it reads of an opened
      entry makes no difference (`StreamReader.Read`). */
  datatype Choice = Skip | Open

  /** The result of one call of `Next`, and the bytes that the entry gives when it is opened. */
  datatype Item = Item(result: Result, data: Option<bytes>)

  function Use(s: State, choice: Choice): State {
    if choice.Skip? || s.cur.None? then s else s.(cur := Some(OpenedEntry(s.cur.value)))
  }

  function Given(s: State): Option<bytes> {
    if s.cur.None? || s.cur.value.reading.None? then None
    else Some(s.rest[..DataLength(s.cur.value.reading.value, s.rest)])
  }

  function Visit(s: State, choice: Choice): (Item, State) {
    var (result, t) := Step(s);
    (Item(result, Given(Use(t, choice))), Use(t, choice))
  }

  /** One call of `Next` for each choice, and one more. */
  function Session(visit: (State, Choice) -> (Item, State), s: State, plan: seq<Choice>): seq<Item>
    decreases |plan|
  {
    if plan == [] then [visit(s, Skip).0]
    else [visit(s, plan[0]).0] + Session(visit, visit(s, plan[0]).1, plan[1..])
  }

  lemma SessionSame(visit: (State, Choice) -> (Item, State), s: State, t: State, plan: seq<Choice>)
    requires forall c :: visit(s, c) == visit(t, c)
    ensures Session(visit, s, plan) == Session(visit, t, plan)
  {
  }

  /** The item's bytes are read as its view, and lead to where the next one begins. */
  ghost predicate Leads<T>(visit: (State, Choice) -> (Item, State), enc: T -> bytes, view: (T, Choice) -> Item, x: T,
                           choice: Choice) {
    forall t: bytes ::
      var v := visit(State(None, enc(x) + t), choice);
      v.0 == view(x, choice) && forall c :: visit(v.1, c) == visit(State(None, t), c)
  }

  function Viewed<T>(view: (T, Choice) -> Item, items: seq<T>, plan: seq<Choice>): seq<Item>
    requires |items| <= |plan|
  {
    seq(|items|, i requires 0 <= i < |items| => view(items[i], plan[i]))
  }

  lemma {:induction false} SessionOver<T>(visit: (State, Choice) -> (Item, State), enc: T -> bytes,
                                          view: (T, Choice) -> Item,
                                          items: seq<T>, rest: bytes, plan: seq<Choice>)
    requires |items| <= |plan| && forall i :: 0 <= i < |items| ==> Leads(visit, enc, view, items[i], plan[i])
    ensures Session(visit, State(None, EncodeAll(enc, items) + rest), plan)
         == Viewed(view, items, plan) + Session(visit, State(None, rest), plan[|items|..])
    decreases |items|
  {
    if items == [] {
      assert EncodeAll(enc, items) + rest == rest && plan[0..] == plan;
    } else {
      var n := |items| - 1;
      var init, x := items[..n], items[n];
      assert EncodeAll(enc, items) + rest == EncodeAll(enc, init) + (enc(x) + rest);
      SessionOver(visit, enc, view, init, enc(x) + rest, plan);
      var s := State(None, enc(x) + rest);
      assert Leads(visit, enc, view, x, plan[n]);
      assert plan[n..][0] == plan[n] && plan[n..][1..] == plan[n + 1..];
      SessionSame(visit, visit(s, plan[n]).1, State(None, rest), plan[n + 1..]);
      assert Viewed(view, items, plan) == Viewed(view, init, plan) + [view(x, plan[n])];
    }
  }

  // ---------------------------------------------------------------- one entry

  function EntryItem(r: W.Record, choice: Choice): Item {
    Item(Entry(r.local), if choice.Open? then Some(r.payload) else None)
  }

  /** Used that way, the entry ends where the next one begins, and gives its data when it is opened. */
  ghost predicate Exactly(r: W.Record, choice: Choice) {
    if choice.Skip? then SkipsExactly(r) else Plain(r.local) && OpensExactly(r) && GivesPayload(r)
  }

  function Fresh(h: LocalHeader): Current {
    Current(h, ConfOfLocal(h).csize, None)
  }

  lemma HeaderRead(r: W.Record, t: bytes)
    requires LocalFits(r.local)
    ensures Step(State(None, W.RecordBytes(r) + t)) == (Entry(r.local), State(Some(Fresh(r.local)), Section(r) + t))
  {
    assert W.RecordBytes(r) + t == EncodeLocal(r.local) + (Section(r) + t);
    HeaderThere(r.local, Section(r) + t);
  }

  lemma UsedExactly(r: W.Record, choice: Choice, t: bytes)
    requires Exactly(r, choice)
    ensures var u := Use(State(Some(Fresh(r.local)), Section(r) + t), choice);
            After(u) == Some(t) && Given(u) == EntryItem(r, choice).data
  {
    if choice.Skip? {
      assert AfterSkip(Section(r) + t, r.local, ConfOfLocal(r.local).csize) == Some(t);
    } else {
      assert AfterOpened(Section(r) + t, r.local, Opened(RawOf(r.local), false)) == Some(t);
      assert DataOf(r, t) == r.payload;
    }
  }

  lemma OneEntry(r: W.Record, choice: Choice)
    requires LocalFits(r.local) && Exactly(r, choice)
    ensures Leads(Visit, W.RecordBytes, EntryItem, r, choice)
  {
    forall t: bytes
      ensures var v := Visit(State(None, W.RecordBytes(r) + t), choice);
              v.0 == EntryItem(r, choice) && After(v.1) == Some(t)
    {
      HeaderRead(r, t);
      UsedExactly(r, choice, t);
    }
    forall s: State, t: bytes, c | After(s) == Some(t)
      ensures Visit(s, c) == Visit(State(None, t), c)
    {
      assert Step(s) == Step(State(None, t));
    }
  }

  /** The first bytes behind the entries are a central header. */
  lemma AfterEntries(log: seq<W.Record>, end: bytes)
    requires log != []
    ensures Step(State(None, W.Central(log) + end)).0 == End
  {
    CentralStart(log);
    var s := W.Central(log) + end;
    assert s[..4] == W.Central(log)[..4];
    ReadWritten4(CENTRAL_SIGNATURE);
  }

  lemma {:induction false} CentralStart(log: seq<W.Record>)
    requires log != []
    ensures |W.Central(log)| >= 4 && W.Central(log)[..4] == LE(4, CENTRAL_SIGNATURE)
  {
    var init, h := log[..|log| - 1], log[|log| - 1].central;
    if init == [] {
      CentralFieldsLow(h, h.name + h.extra + h.comment);
      assert EncodeCentral(h) == CentralFixed(h) + (h.name + h.extra + h.comment);
      assert W.Central(log) == [] + EncodeCentral(h) == EncodeCentral(h);
      assert EncodeCentral(h)[..4] == EncodeCentral(h)[0..4];
    } else {
      CentralStart(init);
      assert (W.Central(init) + EncodeCentral(h))[..4] == W.Central(init)[..4];
    }
  }

  /** What the forward reader sees of a record and the bytes in front of it. */
  predicate Seen(r: W.Record, x: W.Record) {
    r.junk + W.RecordBytes(r) == W.RecordBytes(x)
  }

  lemma {:induction false} LocalIsSeen(log: seq<W.Record>, seen: seq<W.Record>)
    requires |seen| == |log| && forall i :: 0 <= i < |log| ==> Seen(log[i], seen[i])
    ensures W.Local(log) == EncodeAll(W.RecordBytes, seen)
    decreases |log|
  {
    if log != [] {
      LocalIsSeen(log[..|log| - 1], seen[..|log| - 1]);
    }
  }

  lemma {:induction false} NoJunkAt(log: seq<W.Record>, i: nat)
    requires W.NoJunk(log) && i < |log|
    ensures log[i].junk == [] && Seen(log[i], log[i])
  {
    if i < |log| - 1 {
      NoJunkAt(log[..|log| - 1], i);
    } else {
      assert [] + W.RecordBytes(log[i]) == W.RecordBytes(log[i]);
    }
  }

  /** The directory and the end records. */
  function Rear(log: seq<W.Record>, tail: bytes, comment: bytes): bytes {
    W.Central(log) + W.EndBytesOf(log, tail, comment)
  }

  /** Reading an archive from front to back, with any mixture of skipping and opening, gives what is seen
      of its records, and then what is seen of the bytes that failed entries have left behind the last
      one, with the directory behind them. */
  lemma StreamOfArchive(log: seq<W.Record>, seen: seq<W.Record>, tail: bytes, plan: seq<Choice>, comment: bytes)
    requires |log| == |seen| <= |plan| && forall i :: 0 <= i < |log| ==> Seen(log[i], seen[i])
    requires forall i :: 0 <= i < |seen| ==> LocalFits(seen[i].local) && Exactly(seen[i], plan[i])
    ensures Session(Visit, State(None, W.ArchiveBytes(log, tail, comment)), plan)
         == Viewed(EntryItem, seen, plan)
            + Session(Visit, State(None, tail + Rear(log, tail, comment)), plan[|log|..])
  {
    BytesSeen(log, seen, tail, comment);
    forall i | 0 <= i < |seen|
      ensures Leads(Visit, W.RecordBytes, EntryItem, seen[i], plan[i])
    {
      OneEntry(seen[i], plan[i]);
    }
    SessionOver(Visit, W.RecordBytes, EntryItem, seen, tail + Rear(log, tail, comment), plan);
  }

  lemma BytesSeen(log: seq<W.Record>, seen: seq<W.Record>, tail: bytes, comment: bytes)
    requires |seen| == |log| && forall i :: 0 <= i < |log| ==> Seen(log[i], seen[i])
    ensures W.ArchiveBytes(log, tail, comment) == EncodeAll(W.RecordBytes, seen) + (tail + Rear(log, tail, comment))
  {
    LocalIsSeen(log, seen);
    AssociateThree(W.Local(log), tail, W.Central(log), W.EndBytesOf(log, tail, comment));
    Associate(tail, W.Central(log), W.EndBytesOf(log, tail, comment));
  }

  /** With nothing left behind the last record the end comes next. */
  lemma StreamToEnd(log: seq<W.Record>, seen: seq<W.Record>, plan: seq<Choice>, comment: bytes)
    requires log != [] && |plan| == |log| == |seen| && forall i :: 0 <= i < |log| ==> Seen(log[i], seen[i])
    requires forall i :: 0 <= i < |seen| ==> LocalFits(seen[i].local) && Exactly(seen[i], plan[i])
    ensures Session(Visit, State(None, W.ArchiveBytes(log, [], comment)), plan)
         == Viewed(EntryItem, seen, plan) + [Item(End, None)]
  {
    StreamOfArchive(log, seen, [], plan, comment);
    LastItem(log, plan[|log|..], comment);
  }

  lemma LastItem(log: seq<W.Record>, plan: seq<Choice>, comment: bytes)
    requires log != [] && plan == []
    ensures Session(Visit, State(None, [] + Rear(log, [], comment)), plan) == [Item(End, None)]
  {
    EndAt([] + Rear(log, [], comment), log, W.EndBytesOf(log, [], comment));
    LastVisit(State(None, [] + Rear(log, [], comment)));
  }

  lemma EndAt(behind: bytes, log: seq<W.Record>, end: bytes)
    requires log != [] && behind == [] + (W.Central(log) + end)
    ensures Step(State(None, behind)).0 == End
  {
    assert behind == W.Central(log) + end;
    AfterEntries(log, end);
  }

  /** An empty archive has no directory header: it is reported as malformed and not as the end. */
  lemma EmptyArchiveFails(comment: bytes)
    ensures Step(State(None, W.ArchiveBytes([], [], comment))).0 == Failed
  {
    assert W.ArchiveBytes([], [], comment) == EncodeEocd(0, 0, 0, comment);
    EocdAtStart(0, 0, 0, comment);
  }

  lemma EocdAtStart(entries: nat, size: nat, offset: nat, comment: bytes)
    ensures NextHeader(EncodeEocd(entries, size, offset, comment)).0 == Failed
  {
    var s := EncodeEocd(entries, size, offset, comment);
    EocdFields([], entries, size, offset, comment);
    assert s == [] + s && s[..4] == s[0..4];
    ReadWritten4(EOCD_SIGNATURE);
  }

  // ---------------------------------------------------------------- forward reading and the directory

  /** The two headers of a record agree on what the entry is. */
  lemma SameEntry(f: W.File, isSeeker: bool, pipe: W.Pipeline, r: W.Record, at: nat, decode: bytes -> bytes)
    requires W.Written(f, isSeeker, pipe, r) && W.RecordOk(r, at)
    ensures Agree(r, decode)
  {
    LocalIs(f, isSeeker, pipe, r);
    FlagBits(r.snap);
  }

  predicate Agree(r: W.Record, decode: bytes -> bytes) {
    FileOfLocal(r.local, decode).name == FileOf(r.central, decode).name
      && FileOfLocal(r.local, decode).isDir == FileOf(r.central, decode).isDir
  }

  /** How an entry of a sequential run can be used. */
  predicate UsableAs(f: W.File, isSeeker: bool, r: W.Record, choice: Choice) {
    if choice.Skip? then SkipOk(f, isSeeker, r)
    else Plain(r.local) && OpenOk(f, isSeeker, r) && GivenEnd(r) == |r.payload|
  }

  /** That is exactly how it gives what was written and leads to the next one. */
  lemma UsableIff(f: W.File, isSeeker: bool, pipe: W.Pipeline, r: W.Record, choice: Choice)
    requires W.Written(f, isSeeker, pipe, r) && Bounded(HeaderSnap(f, isSeeker, r))
    ensures Exactly(r, choice) <==> UsableAs(f, isSeeker, r, choice)
  {
    SequentialSkipIff(f, isSeeker, pipe, r);
    SequentialOpenIff(f, isSeeker, pipe, r);
    ExactlyIff(r, choice);
  }

  lemma ExactlyIff(r: W.Record, choice: Choice)
    ensures Exactly(r, choice) <==>
              if choice.Skip? then SkipsExactly(r) else Plain(r.local) && OpensExactly(r) && GivenEnd(r) == |r.payload|
  {
    OpensExactlyIff(r);
    if OpenEnd(r) == Some(|Section(r)|) {
      GivesPayloadIff(r);
    }
  }

  /** What forward reading of a whole archive gives, with the choices made in `plan`: the entries in the
      order of the directory, each with the name and kind that the directory gives it, and with the data
      written for it if it is opened; and then the end. */
  ghost predicate ReadsForward(log: seq<W.Record>, comment: bytes, plan: seq<Choice>, decode: bytes -> bytes)
    requires |plan| == |log|
  {
    var archive := W.ArchiveBytes(log, [], comment);
    && Session(Visit, State(None, archive), plan) == Viewed(EntryItem, log, plan) + [Item(End, None)]
    && Listing(archive) == Some(Centrals(log)) && |Centrals(log)| == |log|
    && forall i :: 0 <= i < |log| ==> Centrals(log)[i] == log[i].central && Agree(log[i], decode)
  }

  /** The limits within which the directory of an archive is read back. */
  ghost predicate Loadable(log: seq<W.Record>, tail: bytes, comment: bytes) {
    && log != [] && W.LogOk(log) && (forall r :: r in log ==> Portable(r))
    && In63(|log|) && In63(|W.Local(log) + tail| + |W.Central(log)|)
    && EndReadable(|log|, |W.Central(log)|, |W.Local(log) + tail|, comment)
    && NoFakedEnd(W.ArchiveBytes(log, tail, comment), comment)
  }

  lemma Listed(log: seq<W.Record>, tail: bytes, comment: bytes)
    requires Loadable(log, tail, comment)
    ensures Listing(W.ArchiveBytes(log, tail, comment)) == Some(Centrals(log)) && |Centrals(log)| == |log|
    ensures forall i :: 0 <= i < |log| ==> LocalFits(log[i].local) && Centrals(log)[i] == log[i].central
  {
    AllFit(log);
    WriteThenLoad(log, tail, comment);
    forall i | 0 <= i < |log|
      ensures LocalFits(log[i].local) && Centrals(log)[i] == log[i].central
    {
      assert log[i] in log;
      MapAt(CentralOfRecord, log, i);
    }
  }

  lemma ForwardAsListed(log: seq<W.Record>, comment: bytes, plan: seq<Choice>, decode: bytes -> bytes)
    requires Loadable(log, [], comment) && W.NoJunk(log) && |plan| == |log|
    requires forall i :: 0 <= i < |log| ==> Exactly(log[i], plan[i]) && Agree(log[i], decode)
    ensures ReadsForward(log, comment, plan, decode)
  {
    Listed(log, [], comment);
    forall i | 0 <= i < |log|
      ensures Seen(log[i], log[i])
    {
      NoJunkAt(log, i);
    }
    StreamToEnd(log, log, plan, comment);
  }

  /** The archive of a sequential run without failures. */
  lemma SequentialStream(files: seq<W.File>, isSeeker: bool, pipe: W.Pipeline, log: seq<W.Record>, comment: bytes,
                         plan: seq<Choice>, decode: bytes -> bytes)
    requires W.LogFor(files, isSeeker, pipe, log) && Loadable(log, [], comment) && W.NoJunk(log) && |plan| == |log|
    requires forall i :: 0 <= i < |log| ==>
               Bounded(HeaderSnap(files[i], isSeeker, log[i])) && UsableAs(files[i], isSeeker, log[i], plan[i])
    ensures ReadsForward(log, comment, plan, decode)
  {
    forall i | 0 <= i < |log|
      ensures Exactly(log[i], plan[i]) && Agree(log[i], decode)
    {
      UsableIff(files[i], isSeeker, pipe, log[i], plan[i]);
      LogAt(log, i);
      SameEntry(files[i], isSeeker, pipe, log[i], |W.Local(log[..i])|, decode);
    }
    ForwardAsListed(log, comment, plan, decode);
  }

  predicate ParallelUsableAs(w: W.File, r: W.Record, choice: Choice) {
    if choice.Skip? then ParallelSkipOk(w, r) else Plain(r.local) && ParallelOpenOk(w, r) && GivenEnd(r) == |r.payload|
  }

  /** The archive of a parallel run, with the files in the order in which they were handled. */
  lemma ParallelStream(files: seq<W.File>, pipe: W.Pipeline, log: seq<W.Record>, comment: bytes, plan: seq<Choice>,
                       decode: bytes -> bytes)
    requires ParallelLogFor(files, pipe, log) && Loadable(log, [], comment) && |plan| == |log|
    requires forall i :: 0 <= i < |log| ==> ParallelUsableAs(files[i], log[i], plan[i])
    ensures ReadsForward(log, comment, plan, decode)
  {
    NoJunkInParallel(files, pipe, log);
    forall i | 0 <= i < |log|
      ensures Exactly(log[i], plan[i]) && Agree(log[i], decode)
    {
      assert log[i] in log;
      ParallelSkipIff(files[i], pipe, log[i]);
      ParallelOpenIff(files[i], pipe, log[i]);
      ExactlyIff(log[i], plan[i]);
      LogAt(log, i);
      ParallelSame(files[i], pipe, log[i], |W.Local(log[..i])|, decode);
    }
    ForwardAsListed(log, comment, plan, decode);
  }

  lemma ParallelSame(w: W.File, pipe: W.Pipeline, r: W.Record, at: nat, decode: bytes -> bytes)
    requires WrittenInParallel(w, pipe, r) && W.RecordOk(r, at)
    ensures Agree(r, decode)
  {
    FlagBits(r.snap);
  }

  lemma {:induction false} NoJunkInParallel(files: seq<W.File>, pipe: W.Pipeline, log: seq<W.Record>)
    requires ParallelLogFor(files, pipe, log)
    ensures W.NoJunk(log)
  {
    if log != [] {
      NoJunkInParallel(files[..|log| - 1], pipe, log[..|log| - 1]);
    }
  }

  // ---------------------------------------------------------------- leftovers of failed entries

  /** A header and some data in front of a record: the forward reader takes all of it for one entry. */
  function Swallowing(r: W.Record, h: LocalHeader, data: bytes): W.Record {
    r.(junk := [], local := h, payload := data + EncodeLocal(r.local) + r.payload)
  }

  lemma SwallowingSeen(r: W.Record, h: LocalHeader, data: bytes)
    requires r.junk == EncodeLocal(h) + data
    ensures Seen(r, Swallowing(r, h, data))
  {
  }

  /** A streamed entry has failed and left its header and some data.  Skipping that entry ends exactly
      behind the next record, if the data of both does not contain the signature, and their sizes exceed
      the 32-bit limit both or not at all; so the reader reports the failed entry instead of the next. */
  lemma FailedHidesNextIff(f: W.File, pipe: W.Pipeline, at: int, g: W.File, r: W.Record)
    requires IsStreamed(f, false) && W.Failure(f, false, pipe).Some? && r.junk == W.Leftover(f, at, false, pipe)
    requires W.Written(g, false, pipe, r) && IsStreamed(g, false)
    requires var t := HeaderBefore(f, false, at); Bounded(t)
    requires var x := Swallowing(r, LocalOf(HeaderBefore(f, false, at)), DataSoFar(f, false, at, pipe));
             First(Section(x), DescriptorSig(), 0) == Some(|x.payload|)
    ensures var x := Swallowing(r, LocalOf(HeaderBefore(f, false, at)), DataSoFar(f, false, at, pipe));
            Seen(r, x) && (SkipsExactly(x) <==> (Big(HeaderBefore(f, false, at)) <==> Big(r.snap)))
  {
    var t := HeaderBefore(f, false, at);
    var x := Swallowing(r, LocalOf(t), DataSoFar(f, false, at, pipe));
    SwallowingSeen(r, LocalOf(t), DataSoFar(f, false, at, pipe));
    LocalIs(g, false, pipe, r);
    DescriptorShape(r.snap.crc, r.snap.csize, r.snap.usize);
    FlagBits(t);
    SetBitExactly(W.Prepared(f).flags, DESCRIPTOR, DESCRIPTOR);
    LocalConf(t, LocalOf(t));
    FlaggedSkipIff(x);
  }

  /** The state of the entry when its header was written. */
  function HeaderBefore(f: W.File, isSeeker: bool, at: int): Snap {
    W.StreamSnap(W.Prepared(f).(offset := at), isSeeker)
  }

  /** The data that was written behind it. */
  function DataSoFar(f: W.File, isSeeker: bool, at: int, pipe: W.Pipeline): bytes {
    W.EntryOf(f, at, isSeeker, pipe).encoding.out
  }

  /** A file whose source cannot be opened, and one behind it: the directory lists the second one only, and
      the forward reader reports the first one only. */
  lemma UnreadableHidesNext(f: W.File, pipe: W.Pipeline, g: W.File, r: W.Record, comment: bytes, decode: bytes -> bytes)
    requires IsStreamed(f, false) && f.source.Unreadable? && r.junk == W.Leftover(f, 0, false, pipe)
    requires W.Written(g, false, pipe, r) && IsStreamed(g, false) && Loadable([r], [], comment)
    requires Bounded(HeaderBefore(f, false, 0)) && LocalFits(LocalOf(HeaderBefore(f, false, 0)))
             && (Big(HeaderBefore(f, false, 0)) <==> Big(r.snap))
    requires var x := Swallowing(r, LocalOf(HeaderBefore(f, false, 0)), []);
             First(Section(x), DescriptorSig(), 0) == Some(|x.payload|)
    ensures !W.LeavesData(f, false, pipe)
    ensures Listing(W.ArchiveBytes([r], [], comment)) == Some([r.central])
            && FileOf(r.central, decode).name == WithoutSlash(g.snap.name)
    ensures Session(Visit, State(None, W.ArchiveBytes([r], [], comment)), [Skip])
         == [Item(Entry(LocalOf(HeaderBefore(f, false, 0))), None), Item(End, None)]
    ensures FileOfLocal(LocalOf(HeaderBefore(f, false, 0)), decode).name == WithoutSlash(f.snap.name)
  {
    var x := Swallowing(r, LocalOf(HeaderBefore(f, false, 0)), []);
    FailedHidesNextIff(f, pipe, 0, g, r);
    OneSeen(r, x, comment);
    OneListed(r, comment);
    NamesSeen(f, pipe, g, r, decode);
  }

  lemma OneSeen(r: W.Record, x: W.Record, comment: bytes)
    requires Seen(r, x) && LocalFits(x.local) && SkipsExactly(x)
    ensures Session(Visit, State(None, W.ArchiveBytes([r], [], comment)), [Skip]) ==
            [Item(Entry(x.local), None), Item(End, None)]
  {
    StreamToEnd([r], [x], [Skip], comment);
    assert Viewed(EntryItem, [x], [Skip]) == [EntryItem(x, Skip)];
  }

  lemma OneListed(r: W.Record, comment: bytes)
    requires Loadable([r], [], comment)
    ensures Listing(W.ArchiveBytes([r], [], comment)) == Some([r.central])
  {
    Listed([r], [], comment);
    assert Centrals([r]) == [r.central];
  }

  lemma NamesSeen(f: W.File, pipe: W.Pipeline, g: W.File, r: W.Record, decode: bytes -> bytes)
    requires IsStreamed(f, false) && W.Written(g, false, pipe, r) && IsStreamed(g, false) && W.LogOk([r])
    ensures FileOf(r.central, decode).name == WithoutSlash(g.snap.name)
    ensures FileOfLocal(LocalOf(HeaderBefore(f, false, 0)), decode).name == WithoutSlash(f.snap.name)
  {
    LogAt([r], 0);
    StreamedName(g, pipe, r);
    NameInDirectory(r, |W.Local([r][..0])|, decode);
    NameInHeader(HeaderBefore(f, false, 0), decode);
  }

  lemma NameInDirectory(r: W.Record, at: nat, decode: bytes -> bytes)
    requires W.RecordOk(r, at) && !r.snap.isDir
    ensures FileOf(r.central, decode).name == WithoutSlash(r.snap.name)
  {
    FlagBits(r.snap);
  }

  lemma NameInHeader(s: Snap, decode: bytes -> bytes)
    requires !s.isDir
    ensures FileOfLocal(LocalOf(s), decode).name == WithoutSlash(s.name)
  {
    FlagBits(s);
  }

  lemma StreamedName(g: W.File, pipe: W.Pipeline, r: W.Record)
    requires W.Written(g, false, pipe, r) && IsStreamed(g, false)
    ensures r.snap.name == g.snap.name && !r.snap.isDir
  {
    W.EncodeMeaning(HeaderSnap(g, false, r), g.source, pipe);
  }

  /** A file fails behind the last record and leaves its header and the data so far: the reader reports
      its entry, which the directory does not list.  If the header asks for a descriptor and none is
      found, an error follows instead of the end; otherwise the end follows if the header shows the size
      of that data, and an error if it shows more than there is. */
  lemma FailedLast(log: seq<W.Record>, seen: seq<W.Record>, f: W.File, isSeeker: bool, pipe: W.Pipeline, at: int,
                   plan: seq<Choice>, comment: bytes) returns (h: LocalHeader, data: bytes, last: Result)
    requires log != [] && |plan| == |log| + 1 == |seen| + 1 && plan[|log|].Skip?
    requires forall i :: 0 <= i < |log| ==> Seen(log[i], seen[i])
    requires forall i :: 0 <= i < |seen| ==> LocalFits(seen[i].local) && Exactly(seen[i], plan[i])
    requires LeavesHeader(f, isSeeker, pipe) && LocalFits(LocalOf(HeaderBefore(f, isSeeker, at)))
    ensures h == LocalOf(HeaderBefore(f, isSeeker, at)) && data == DataSoFar(f, isSeeker, at, pipe)
    ensures W.Leftover(f, at, isSeeker, pipe) == EncodeLocal(h) + data
    ensures Session(Visit, State(None, W.ArchiveBytes(log, EncodeLocal(h) + data, comment)), plan)
         == Viewed(EntryItem, seen, plan) + [Item(Entry(h), None), Item(last, None)]
    ensures LastIs(log, h, data, comment, last)
    ensures Loadable(log, EncodeLocal(h) + data, comment) ==>
              Listing(W.ArchiveBytes(log, EncodeLocal(h) + data, comment)) == Some(Centrals(log))
  {
    h, data := LocalOf(HeaderBefore(f, isSeeker, at)), DataSoFar(f, isSeeker, at, pipe);
    last := EntryAtEnd(log, seen, h, data, plan, comment);
    if Loadable(log, EncodeLocal(h) + data, comment) {
      Listed(log, EncodeLocal(h) + data, comment);
    }
  }

  /** How reading ends when an unlisted entry stands behind the others. */
  predicate LastIs(log: seq<W.Record>, h: LocalHeader, data: bytes, comment: bytes, last: Result) {
    var behind := data + Rear(log, EncodeLocal(h) + data, comment);
    && (Flagged(h) && First(behind, DescriptorSig(), 0).None? ==> last == Failed)
    && (!Flagged(h) && ConfOfLocal(h).csize == |data| ==> last == End)
    && (!Flagged(h) && ConfOfLocal(h).csize > |behind| ==> last == Failed)
  }

  lemma EntryAtEnd(log: seq<W.Record>, seen: seq<W.Record>, h: LocalHeader, data: bytes, plan: seq<Choice>,
                   comment: bytes) returns (last: Result)
    requires log != [] && |plan| == |log| + 1 == |seen| + 1 && plan[|log|].Skip? && LocalFits(h)
    requires forall i :: 0 <= i < |log| ==> Seen(log[i], seen[i])
    requires forall i :: 0 <= i < |seen| ==> LocalFits(seen[i].local) && Exactly(seen[i], plan[i])
    ensures Session(Visit, State(None, W.ArchiveBytes(log, EncodeLocal(h) + data, comment)), plan)
         == Viewed(EntryItem, seen, plan) + [Item(Entry(h), None), Item(last, None)]
    ensures LastIs(log, h, data, comment, last)
  {
    var tail := EncodeLocal(h) + data;
    StreamOfArchive(log, seen, tail, plan, comment);
    assert plan[|log|..] == [Skip];
    Associate(EncodeLocal(h), data, Rear(log, tail, comment));
    last := LeftoverItems(h, data + Rear(log, tail, comment));
    EndBehindData(log, W.EndBytesOf(log, tail, comment), h, data);
  }

  /** A failed entry that has been streamed has left its header, and possibly data. */
  predicate LeavesHeader(f: W.File, isSeeker: bool, pipe: W.Pipeline) {
    !f.snap.isDir && W.Streams(f, isSeeker) && W.Failure(f, isSeeker, pipe).Some?
  }

  lemma LeftoverItems(h: LocalHeader, behind: bytes) returns (last: Result)
    requires LocalFits(h)
    ensures Session(Visit, State(None, EncodeLocal(h) + behind), [Skip]) == [Item(Entry(h), None), Item(last, None)]
    ensures last == Step(State(Some(Fresh(h)), behind)).0
    ensures Flagged(h) && First(behind, DescriptorSig(), 0).None? ==> last == Failed
    ensures !Flagged(h) && ConfOfLocal(h).csize > |behind| ==> last == Failed
  {
    var (s, t) := (State(None, EncodeLocal(h) + behind), State(Some(Fresh(h)), behind));
    HeaderThere(h, behind);
    assert Visit(s, Skip) == (Item(Entry(h), None), t);
    assert [Skip][1..] == [];
    last := Step(t).0;
    LastVisit(t);
  }

  /** The last call of a session uses no entry. */
  lemma LastVisit(s: State)
    ensures Session(Visit, s, []) == [Item(Step(s).0, None)]
  {
  }

  lemma HeaderThere(h: LocalHeader, behind: bytes)
    requires LocalFits(h)
    ensures Step(State(None, EncodeLocal(h) + behind)) == (Entry(h), State(Some(Fresh(h)), behind))
  {
    var s := EncodeLocal(h) + behind;
    LocalRoundTrip(h, behind);
    assert s[0..4] == s[..4];
  }

  lemma EndBehindData(log: seq<W.Record>, end: bytes, h: LocalHeader, data: bytes)
    requires log != []
    ensures !Flagged(h) && ConfOfLocal(h).csize == |data| ==>
              Step(State(Some(Fresh(h)), data + (W.Central(log) + end))).0 == End
  {
    var behind := data + (W.Central(log) + end);
    assert behind[|data|..] == W.Central(log) + end && behind[0..] == behind;
    AfterEntries(log, end);
  }

  // ---------------------------------------------------------------- stored entries under the legacy cipher

  /** Stores, under the legacy cipher for a CRC-32 table, with a header of eleven random bytes and the
      check byte for every entry. */
  function LegacyPipeline(table: byte -> u32, password: bytes, header: nat -> bytes): W.Pipeline {
    var w := Z.PkwareWords(table);
    W.Pipeline((c: Config, d: bytes, draw: nat) =>
                 W.Output(Z.Encrypted(w, Z.Start(w, password), header(draw) + d), true),
               (d: bytes) => 0)
  }

  /** Whatever the cipher, the password, the name and the data: reading such an entry to its end leaves
      twelve bytes in the stream, and the next call reports a malformed archive, unless by accident these
      begin like a header. */
  lemma LegacyNeverOpens(table: byte -> u32, password: bytes, header: nat -> bytes, f: W.File, isSeeker: bool,
                         r: W.Record, rest: bytes)
    requires (forall draw: nat :: |header(draw)| == Z.HEADER_SIZE) && !f.snap.isDir && f.source.Content?
             && !Bit(f.snap.flags, DESCRIPTOR) && f.source.data != []
    requires f.snap.config.scheme == STORE && f.snap.config.encryption == ZipCrypto
    requires W.Written(f, isSeeker, LegacyPipeline(table, password, header), r) && WithinLimits(r.snap)
    ensures !OpensExactly(r) && |r.payload| == |f.source.data| + 12
    ensures var (c, left) := (Fresh(r.local), r.payload[|f.source.data|..]);
            && |left| == 12
            && Step(Use(State(Some(c), Section(r) + rest), Open)) == NextHeader(left + rest)
            && (U32(left[..4]) != LOCAL_SIGNATURE && U32(left[..4]) != CENTRAL_SIGNATURE ==>
                  Step(Use(State(Some(c), Section(r) + rest), Open)).0 == Failed)
  {
    var pipe := LegacyPipeline(table, password, header);
    assert f.snap.usize != 0 by {
      WrittenSize(f, isSeeker, pipe, r);
    }
    LegacyPayload(table, password, header, f, isSeeker, r);
    EncryptedNeverOpens(f, isSeeker, pipe, r, rest);
    LegacyScheme(f, isSeeker, pipe, r);
    LegacyNext(r, |f.source.data|, rest);
  }

  lemma LegacyScheme(f: W.File, isSeeker: bool, pipe: W.Pipeline, r: W.Record)
    requires W.Written(f, isSeeker, pipe, r) && !IsStreamed(f, isSeeker) && W.Prepared(f).config.scheme == STORE
    requires W.Prepared(f).config.encryption == ZipCrypto && WithinLimits(r.snap)
    ensures ConfOfLocal(r.local).scheme == STORE
  {
    LocalIs(f, isSeeker, pipe, r);
    LocalConf(r.snap, r.local);
  }

  lemma WrittenSize(f: W.File, isSeeker: bool, pipe: W.Pipeline, r: W.Record)
    requires W.Written(f, isSeeker, pipe, r) && !f.snap.isDir && f.source.Content? && f.source.data != []
    ensures f.snap.usize != 0
  {
  }

  lemma LegacyPayload(table: byte -> u32, password: bytes, header: nat -> bytes, f: W.File, isSeeker: bool, r: W.Record)
    requires (forall draw: nat :: |header(draw)| == Z.HEADER_SIZE) && !f.snap.isDir && f.source.Content?
             && f.snap.usize != 0
    requires W.Written(f, isSeeker, LegacyPipeline(table, password, header), r)
    ensures |r.payload| == Z.HEADER_SIZE + |f.source.data|
  {
    var p := W.Prepared(f).(offset := r.snap.offset);
    W.EncodeMeaning(HeaderSource(f, isSeeker, p), f.source, LegacyPipeline(table, password, header));
  }

  function HeaderSource(f: W.File, isSeeker: bool, p: Snap): Snap {
    if W.Streams(f, isSeeker) then W.StreamSnap(p, isSeeker) else p
  }

  lemma LegacyNext(r: W.Record, n: nat, rest: bytes)
    requires n + Z.HEADER_SIZE == |r.payload| && ConfOfLocal(r.local).scheme == STORE
    requires AfterOpened(Section(r) + rest, r.local, Opened(RawOf(r.local), false)) == Some(r.payload[n..] + rest)
    ensures var (c, left) := (Fresh(r.local), r.payload[n..]);
            && Step(Use(State(Some(c), Section(r) + rest), Open)) == NextHeader(left + rest)
            && (U32(left[..4]) != LOCAL_SIGNATURE && U32(left[..4]) != CENTRAL_SIGNATURE ==>
                NextHeader(left + rest).0 == Failed)
  {
    assert (r.payload[n..] + rest)[..4] == r.payload[n..][..4];
  }
}
