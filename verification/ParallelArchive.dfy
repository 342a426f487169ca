/** The archive of a parallel run: what the collector writes when it handles results in some order, and
    what is read back from it. */
module ParallelArchive {
  import opened Wrappers
  import opened Bytes
  import opened EndRecords
  import opened Snapshot
  import opened Writer
  import opened Archive
  import opened Repeat
  import P = ParallelWrite
  import O = ParallelOutcome

  function Selected(files: seq<File>, order: seq<nat>): seq<File>
    requires forall k :: 0 <= k < |order| ==> order[k] < |files|
  {
    seq(|order|, k requires 0 <= k < |order| => files[order[k]])
  }

  lemma SelectedNext(files: seq<File>, order: seq<nat>, k: nat)
    requires (forall k :: 0 <= k < |order| ==> order[k] < |files|) && k < |order|
    ensures Selected(files, order)[..k + 1] == Selected(files, order)[..k] + [files[order[k]]]
            && files[order[k]] in files
  {
  }

  /** The records are those of the files, in order. */
  predicate ParallelLogFor(files: seq<File>, pipe: Pipeline, log: seq<Record>) {
    |log| == |files| && forall i :: 0 <= i < |log| ==> WrittenInParallel(files[i], pipe, log[i])
  }

  predicate DirOk(f: File) {
    FileOk(f) && (f.snap.isDir ==> f.snap.usize == 0)
  }

  lemma CompressKeeps(f: File, pipe: Pipeline)
    ensures var s := CompressFile(f, pipe).snap;
            s.isImplicit == f.snap.isImplicit && (DirOk(f) && f.snap.isImplicit ==> s.usize == 0)
  {
    EncodeMeaning(Prepared(f), f.source, pipe);
  }

  /** One result: a record of the file is appended, unless it is a skipped directory. */
  method HandleFile(zw: ZipWriter, f: File) returns (err: Option<Error>)
    requires zw.Valid() && zw.tail == [] && DirOk(f)
    modifies zw, zw.encodeBuf
    ensures zw.encodeBuf == old(zw.encodeBuf) || fresh(zw.encodeBuf)
    ensures err.None? ==> zw.Valid() && zw.tail == [] && (zw.Skips(f.snap) ==> zw.log == old(zw.log))
    ensures err.None? && !zw.Skips(f.snap) ==> Appended(f, zw.pipe, old(zw.log), zw.log)
  {
    var e := CompressFile(f, zw.pipe);
    CompressKeeps(f, zw.pipe);
    if e.err.Some? {
      return e.err;
    }
    err := zw.HandleResult(e.snap, e.out);
  }

  predicate Appended(f: File, pipe: Pipeline, before: seq<Record>, log: seq<Record>) {
    |log| == |before| + 1 && log[..|before|] == before && WrittenInParallel(f, pipe, log[|before|])
  }

  lemma NextRecord(files: seq<File>, f: File, pipe: Pipeline, before: seq<Record>, log: seq<Record>)
    requires ParallelLogFor(files, pipe, before) && Appended(f, pipe, before, log)
    ensures ParallelLogFor(files + [f], pipe, log)
  {
    forall i | 0 <= i < |log|
      ensures WrittenInParallel((files + [f])[i], pipe, log[i])
    {
      assert i < |before| ==> log[i] == log[..|before|][i];
    }
  }

  method HandleNext(zw: ZipWriter, f: File, ghost done: seq<File>) returns (err: Option<Error>)
    requires zw.Valid() && zw.tail == [] && DirOk(f)
             && ParallelLogFor(Kept(done, zw.includeImplicitDirs), zw.pipe, zw.log)
    modifies zw, zw.encodeBuf
    ensures zw.encodeBuf == old(zw.encodeBuf) || fresh(zw.encodeBuf)
    ensures err.None? ==>
            zw.Valid() && zw.tail == [] && ParallelLogFor(Kept(done + [f], zw.includeImplicitDirs), zw.pipe, zw.log)
  {
    ghost var before := zw.log;
    err := HandleFile(zw, f);
    if err.None? {
      NextHandled(done, f, zw.includeImplicitDirs, zw.pipe, before, zw.log);
    }
  }

  lemma NextHandled(done: seq<File>, f: File, implicitToo: bool, pipe: Pipeline, before: seq<Record>, log: seq<Record>)
    requires ParallelLogFor(Kept(done, implicitToo), pipe, before)
    requires if f.snap.isImplicit && !implicitToo then log == before else Appended(f, pipe, before, log)
    ensures ParallelLogFor(Kept(done + [f], implicitToo), pipe, log)
  {
    assert (done + [f])[..|done|] == done;
    if f.snap.isImplicit && !implicitToo {
      assert Kept(done + [f], implicitToo) == Kept(done, implicitToo) + [] == Kept(done, implicitToo);
    } else {
      NextRecord(Kept(done, implicitToo), f, pipe, before, log);
    }
  }

  /** The collector's work for the results in `order`: the position stays right whatever the files are,
      and the records are those of the files in this order. */
  method WriteHandled(zw: ZipWriter, files: seq<File>, order: seq<nat>) returns (err: Option<Error>)
    requires zw.Valid() && zw.log == [] && zw.tail == []
    requires (forall k :: 0 <= k < |order| ==> order[k] < |files|) && forall f :: f in files ==> DirOk(f)
    modifies zw, zw.encodeBuf
    ensures err.None? ==>
            zw.Valid() && zw.tail == []
              && ParallelLogFor(Kept(Selected(files, order), zw.includeImplicitDirs), zw.pipe, zw.log)
  {
    ghost var all := Selected(files, order);
    for k := 0 to |order|
      invariant zw.Valid() && zw.tail == [] && (zw.encodeBuf == old(zw.encodeBuf) || fresh(zw.encodeBuf))
      invariant ParallelLogFor(Kept(all[..k], zw.includeImplicitDirs), zw.pipe, zw.log)
    {
      SelectedNext(files, order, k);
      err := HandleNext(zw, files[order[k]], all[..k]);
      if err.Some? {
        return;
      }
    }
    assert all[..|all|] == all;
    err := None;
  }

  /** When `WriteFiles` returns without error or cancellation, the files handled are those of the list,
      each as often as the list has it; under the ordered strategy in the order of the list. */
  lemma CleanRunWritesTheList(c: P.Config, s: P.State, files: seq<File>)
    requires P.Reachable(c, s) && P.Returned(s) && !s.cancelled
    requires c.files == |files| && (c.workers > 0 || c.files == 0)
    ensures (forall k :: 0 <= k < |s.handled| ==> s.handled[k] < |files|)
            && multiset(Selected(files, s.handled)) == multiset(files)
    ensures c.strategy.Ordered? ==> Selected(files, s.handled) == files
  {
    P.CleanRunWritesAll(c, s);
    forall k | 0 <= k < |s.handled|
      ensures s.handled[k] < |files|
    {
      P.WrittenAtMostOnce(c, s, s.handled[k]);
    }
    SelectedAll(files, s.handled);
  }

  /** Compressing a task ends as compressing its file does. */
  ghost predicate OutcomesOf(schedule: seq<P.Action>, ss: seq<P.State>, files: seq<File>, pipe: Pipeline) {
    forall i: nat, ok :: i < |files| && O.Compressed(schedule, ss, i, ok) ==>
      (ok <==> CompressFile(files[i], pipe).err.None?)
  }

  /** In every run, cancelled or not, the files handled are files of the list that were compressed
      without an error. */
  lemma HandledFilesSucceeded(c: P.Config, schedule: seq<P.Action>, ss: seq<P.State>, files: seq<File>,
                              pipe: Pipeline, i: nat)
    requires P.IsRun(c, schedule, ss) && c.files == |files| && OutcomesOf(schedule, ss, files, pipe)
    requires i in ss[|schedule|].handled
    ensures i < |files| && CompressFile(files[i], pipe).err.None?
  {
    assert ss[|ss| - 1] == ss[|schedule|];
    P.WrittenAtMostOnce(c, ss[|schedule|], i);
    O.HandledSucceeded(c, schedule, ss, i);
  }

  /** So a run that returns without error or cancellation has compressed every file without one; a
      single file that cannot be compressed keeps every run from that. */
  lemma CleanRunMeansSuccess(c: P.Config, schedule: seq<P.Action>, ss: seq<P.State>, files: seq<File>, pipe: Pipeline)
    requires P.IsRun(c, schedule, ss) && c.files == |files| && OutcomesOf(schedule, ss, files, pipe)
    requires P.Returned(ss[|schedule|]) && !ss[|schedule|].cancelled && (c.workers > 0 || c.files == 0)
    ensures forall f :: f in files ==> CompressFile(f, pipe).err.None?
  {
    O.CleanRunSucceeds(c, schedule, ss);
    forall f | f in files
      ensures CompressFile(f, pipe).err.None?
    {
      var i :| 0 <= i < |files| && files[i] == f;
      HandledFilesSucceeded(c, schedule, ss, files, pipe, i);
    }
  }

  /** An order that has every index once selects every file once. */
  lemma {:induction false} SelectedAll(files: seq<File>, order: seq<nat>)
    requires forall i: nat :: P.Times(order, i) == if i < |files| then 1 else 0
    requires forall k :: 0 <= k < |order| ==> order[k] < |files|
    ensures multiset(Selected(files, order)) == multiset(files)
    decreases |files|
  {
    if files == [] {
      FirstCounts(order);
    } else {
      var n := |files| - 1;
      P.TimesPositive(order, n);
      var k :| 0 <= k < |order| && order[k] == n;
      RestOfOrder(order, k, n);
      SelectedAll(files[..n], order[..k] + order[k + 1..]);
      assert Selected(files[..n], order[..k] + order[k + 1..]) ==
             Selected(files, order)[..k] + Selected(files, order)[k + 1..];
      TakeOut(Selected(files, order), k);
      assert files == files[..n] + [files[n]];
    }
  }

  lemma RestOfOrder(order: seq<nat>, k: nat, n: nat)
    requires k < |order| && order[k] == n && forall i: nat :: P.Times(order, i) == if i <= n then 1 else 0
    ensures var rest := order[..k] + order[k + 1..];
            && (forall i: nat :: P.Times(rest, i) == if i < n then 1 else 0)
               && forall j :: 0 <= j < |rest| ==> rest[j] < n
  {
    var rest := order[..k] + order[k + 1..];
    WithoutOne(order, k);
    assert forall i: nat :: P.Times(rest, i) == P.Times(order, i) - (if n == i then 1 else 0);
    forall j | 0 <= j < |rest|
      ensures rest[j] < n
    {
      P.TimesPositive(rest, rest[j]);
    }
  }

  lemma FirstCounts(order: seq<nat>)
    ensures order == [] || P.Times(order, order[0]) > 0
  {
  }

  lemma TakeOut(s: seq<File>, k: nat)
    requires k < |s|
    ensures multiset(s) == multiset(s[..k] + s[k + 1..]) + multiset{s[k]}
  {
    assert s == s[..k] + [s[k]] + s[k + 1..];
  }

  lemma {:induction false} WithoutOne(order: seq<nat>, k: nat)
    requires k < |order|
    ensures forall i: nat :: P.Times(order[..k] + order[k + 1..], i) ==
                               P.Times(order, i) - if order[k] == i then 1 else 0
  {
    if k == 0 {
      assert order[..0] + order[1..] == order[1..];
    } else {
      var rest := order[..k] + order[k + 1..];
      WithoutOne(order[1..], k - 1);
      assert rest[1..] == order[1..][..k - 1] + order[1..][k..];
    }
  }

  /** Loading the archive of a parallel run lists the files in the order in which they were handled, and
      the data found for a file is the data written exactly if its recorded size was right. */
  lemma ParallelRoundTrip(files: seq<File>, pipe: Pipeline, log: seq<Record>, comment: bytes, decode: bytes -> bytes)
    requires LogOk(log) && ParallelLogFor(files, pipe, log) && forall r :: r in log ==> Portable(r)
    requires In63(|log|) && In63(|Local(log) + []| + |Central(log)|)
    requires EndReadable(|log|, |Central(log)|, |Local(log) + []|, comment)
             && NoFakedEnd(ArchiveBytes(log, [], comment), comment)
    ensures Listing(ArchiveBytes(log, [], comment)) == Some(Centrals(log)) && |Centrals(log)| == |files|
    ensures forall i :: 0 <= i < |files| ==>
              RecoveredInParallel(files[i], pipe, log[i], ArchiveBytes(log, [], comment),
                                  FileOf(Centrals(log)[i], decode))
  {
    AllFit(log);
    WriteThenLoad(log, [], comment);
    forall i | 0 <= i < |files|
      ensures RecoveredInParallel(files[i], pipe, log[i], ArchiveBytes(log, [], comment),
                                  FileOf(Centrals(log)[i], decode))
    {
      assert log[i] in log;
      MapAt(CentralOfRecord, log, i);
      BehindLocal(log, [], comment);
      ParallelEntryRecovered(files[i], pipe, log, i, [] + Central(log) + EndBytesOf(log, [], comment), decode);
    }
  }
}
