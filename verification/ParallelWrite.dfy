/** The parallel write protocol of `parallelZipWriter.WriteFiles`.

    One producer feeds a task channel, a fixed number of workers compress, a bounded results
    channel carries the outcomes, and one collector writes them to the archive.  The protocol is a
    nondeterministic step system: an `Action` is one atomic step of one goroutine, and a schedule is
    any sequence of enabled actions, with cancellation possible at every point. */
module ParallelWrite {

  datatype Strategy = Performance | Ordered

  /** `files` tasks are to be written by `workers` goroutines. */
  datatype Config = Config(files: nat, workers: nat, strategy: Strategy)

  datatype Worker =
    | Idle                            // about to receive from the task channel
    | Took(index: nat)                // received a task, has not looked at the context yet
    | Compressing(index: nat)
    | Sending(index: nat, ok: bool)   // in the final select: send the result or discard it
    | Exited

  datatype Outcome = Outcome(index: nat, ok: bool)

  /** The collector is either blocked on the results channel or inside `handleResult`. */
  datatype Collector = Receiving | Handling(index: nat)

  datatype State = State(
    produced: nat,            // tasks sent so far
    producing: bool,          // the task channel is still open
    tasks: seq<nat>,          // contents of the task channel
    workers: seq<Worker>,
    results: seq<Outcome>,    // contents of the results channel
    resultsClosed: bool,
    cancelled: bool,          // ctx.Err() != nil
    collector: Collector,
    pending: set<nat>,        // the reorder map
    nextIndex: nat,
    handled: seq<nat>,        // indices passed to handleResult, in order
    writeFailed: bool,        // some handleResult returned an error
    dropped: seq<nat>)        // tasks whose result was thrown away or was an error

  datatype Action =
    | Produce
    | StopProducing
    | Take(w: nat)
    | Check(w: nat)
    | Compress(w: nat, ok: bool)
    | Send(w: nat)
    | Discard(w: nat)
    | Exit(w: nat)
    | CloseResults
    | Receive
    | Handle(ok: bool)
    | Cancel

  function Init(c: Config): State {
    State(0, true, [], seq(c.workers, _ => Idle), [], false, false, Receiving, {}, 0, [], false, [])
  }

  /** The task channel holds `files` elements, so a send never blocks; the results channel holds
      twice the number of workers. */
  predicate Enabled(c: Config, s: State, a: Action) {
    match a
    case Produce => s.producing && s.produced < c.files
    case StopProducing => s.producing && (s.produced == c.files || s.cancelled)
    case Take(w) => w < |s.workers| && s.workers[w].Idle? && s.tasks != []
    case Check(w) => w < |s.workers| && s.workers[w].Took?
    case Compress(w, _) => w < |s.workers| && s.workers[w].Compressing?
    case Send(w) => w < |s.workers| && s.workers[w].Sending? && |s.results| < 2 * c.workers
    case Discard(w) => w < |s.workers| && s.workers[w].Sending? && s.cancelled
    case Exit(w) => w < |s.workers| && s.workers[w].Idle? && s.tasks == [] && !s.producing
    case CloseResults => !s.resultsClosed && forall w | 0 <= w < |s.workers| :: s.workers[w].Exited?
    case Receive => s.collector.Receiving? && s.results != []
    case Handle(_) => s.collector.Handling?
    case Cancel => !s.cancelled
  }

  function SetWorker(s: State, w: nat, x: Worker): State
    requires w < |s.workers|
  {
    s.(workers := s.workers[w := x])
  }

  /** The collector takes the head of the results channel and decides what to do with it. */
  function Received(c: Config, s: State): State
    requires Enabled(c, s, Receive)
  {
    var res := s.results[0];
    var rest := s.(results := s.results[1..]);
    if s.cancelled then rest.(dropped := s.dropped + [res.index])
    else if !res.ok then rest.(dropped := s.dropped + [res.index], cancelled := true)
    else if c.strategy.Performance? || res.index == s.nextIndex then rest.(collector := Handling(res.index))
    else rest.(pending := s.pending + {res.index})
  }

  /** One call of `handleResult`, and under the ordered strategy the step to the next pending result. */
  function Handled(c: Config, s: State, ok: bool): State
    requires s.collector.Handling?
  {
    var t := s.(handled := s.handled + [s.collector.index]);
    if !ok then t.(collector := Receiving, cancelled := true, writeFailed := true)
    else if c.strategy.Performance? then t.(collector := Receiving)
    else
      var next := s.nextIndex + 1;
      if next in s.pending
      then t.(nextIndex := next, collector := Handling(next), pending := s.pending - {next})
      else t.(nextIndex := next, collector := Receiving)
  }

  function Apply(c: Config, s: State, a: Action): State
    requires Enabled(c, s, a)
  {
    match a
    case Produce => s.(produced := s.produced + 1, tasks := s.tasks + [s.produced])
    case StopProducing => s.(producing := false)
    case Take(w) => SetWorker(s.(tasks := s.tasks[1..]), w, Took(s.tasks[0]))
    case Check(w) =>
      var i := s.workers[w].index;
      if s.cancelled then SetWorker(s.(dropped := s.dropped + [i]), w, Exited)
      else SetWorker(s, w, Compressing(i))
    case Compress(w, ok) => SetWorker(s, w, Sending(s.workers[w].index, ok))
    case Send(w) =>
      SetWorker(s.(results := s.results + [Outcome(s.workers[w].index, s.workers[w].ok)]), w, Idle)
    case Discard(w) => SetWorker(s.(dropped := s.dropped + [s.workers[w].index]), w, Idle)
    case Exit(w) => SetWorker(s, w, Exited)
    case CloseResults => s.(resultsClosed := true)
    case Receive => Received(c, s)
    case Handle(ok) => Handled(c, s, ok)
    case Cancel => s.(cancelled := true)
  }

  /** `WriteFiles` returns once the results channel is closed and drained. */
  predicate Returned(s: State) {
    s.resultsClosed && s.results == [] && s.collector.Receiving?
  }

  /** `ss` is the run of the schedule `schedule`: one state before each action and one at the end. */
  ghost predicate IsRun(c: Config, schedule: seq<Action>, ss: seq<State>) {
    && |ss| == |schedule| + 1
    && ss[0] == Init(c)
    && forall i {:trigger schedule[i]} :: 0 <= i < |schedule| ==>
         Enabled(c, ss[i], schedule[i]) && ss[i + 1] == Apply(c, ss[i], schedule[i])
  }

  ghost predicate Reachable(c: Config, s: State) {
    exists schedule, ss :: IsRun(c, schedule, ss) && ss[|ss| - 1] == s
  }

  // ---------------------------------------------------------------- conservation of tasks

  function Range(n: nat): (r: seq<nat>)
    ensures |r| == n && forall i :: 0 <= i < n ==> r[i] == i
  {
    seq(n, i => i)
  }

  ghost function Held(w: Worker, i: nat): nat {
    if (w.Took? || w.Compressing? || w.Sending?) && w.index == i then 1 else 0
  }

  ghost function HeldByAll(ws: seq<Worker>, i: nat): nat {
    if ws == [] then 0 else Held(ws[0], i) + HeldByAll(ws[1..], i)
  }

  ghost function Queued(rs: seq<Outcome>, i: nat): nat {
    if rs == [] then 0 else (if rs[0].index == i then 1 else 0) + Queued(rs[1..], i)
  }

  /** The number of occurrences of `i` in a list of indices. */
  ghost function Times(xs: seq<nat>, i: nat): nat {
    if xs == [] then 0 else (if xs[0] == i then 1 else 0) + Times(xs[1..], i)
  }

  /** In how many places of the pipeline task `i` is. */
  ghost function Copies(s: State, i: nat): nat {
    Times(s.tasks, i) + HeldByAll(s.workers, i) + Queued(s.results, i)
    + (if s.collector == Handling(i) then 1 else 0) + (if i in s.pending then 1 else 0)
    + Times(s.handled, i) + Times(s.dropped, i)
  }

  lemma {:induction false} HeldAfterSet(ws: seq<Worker>, w: nat, x: Worker, i: nat)
    requires w < |ws|
    ensures HeldByAll(ws[w := x], i) + Held(ws[w], i) == HeldByAll(ws, i) + Held(x, i)
  {
    if w == 0 {
      assert ws[0 := x][1..] == ws[1..];
    } else {
      assert ws[w := x][1..] == ws[1..][w - 1 := x];
      HeldAfterSet(ws[1..], w - 1, x, i);
    }
  }

  lemma {:induction false} NothingHeld(ws: seq<Worker>, i: nat)
    requires forall w :: 0 <= w < |ws| ==> ws[w].Exited? || ws[w].Idle?
    ensures HeldByAll(ws, i) == 0
  {
    if ws != [] {
      NothingHeld(ws[1..], i);
    }
  }

  lemma {:induction false} QueuedAppend(rs: seq<Outcome>, r: Outcome, i: nat)
    ensures Queued(rs + [r], i) == Queued(rs, i) + if r.index == i then 1 else 0
  {
    if rs == [] {
      assert [r][1..] == [];
    } else {
      assert (rs + [r])[1..] == rs[1..] + [r];
      QueuedAppend(rs[1..], r, i);
    }
  }

  lemma {:induction false} TimesAppend(xs: seq<nat>, x: nat, i: nat)
    ensures Times(xs + [x], i) == Times(xs, i) + if x == i then 1 else 0
  {
    if xs == [] {
      assert [x][1..] == [];
    } else {
      assert (xs + [x])[1..] == xs[1..] + [x];
      TimesAppend(xs[1..], x, i);
    }
  }

  lemma {:induction false} TimesPositive(xs: seq<nat>, i: nat)
    ensures Times(xs, i) > 0 <==> i in xs
  {
    if xs != [] {
      TimesPositive(xs[1..], i);
      assert xs == [xs[0]] + xs[1..];
    }
  }

  lemma {:induction false} RangeOnce(n: nat, i: nat)
    ensures Times(Range(n), i) == if i < n then 1 else 0
  {
    if n > 0 {
      assert Range(n) == Range(n - 1) + [n - 1];
      RangeOnce(n - 1, i);
      TimesAppend(Range(n - 1), n - 1, i);
    }
  }

  // ---------------------------------------------------------------- the invariant

  /** What holds of the reorder map, the counter and the write order under the ordered strategy. */
  ghost predicate OrderInv(s: State) {
    && (s.writeFailed ==> s.cancelled && s.collector.Receiving? && s.handled == Range(s.nextIndex + 1))
    && (!s.writeFailed ==> s.handled == Range(s.nextIndex))
    && (s.collector.Handling? ==> s.collector.index == s.nextIndex)
    && s.nextIndex !in s.pending
  }

  /** Every task that was produced is in exactly one place, every other in none. */
  ghost predicate Conserved(s: State) {
    forall i: nat :: Copies(s, i) == if i < s.produced then 1 else 0
  }

  /** How full the channels are, and what cancellation excludes. */
  ghost predicate BoundsInv(c: Config, s: State) {
    && |s.workers| == c.workers
    && s.produced <= c.files
    && |s.results| <= 2 * c.workers
    && (!s.producing && !s.cancelled ==> s.produced == c.files)
    && (!s.cancelled ==> s.dropped == [])
    && (c.strategy.Performance? ==> s.pending == {})
  }

  /** When goroutines exit. */
  ghost predicate ExitInv(s: State) {
    && (s.resultsClosed ==> forall w :: 0 <= w < |s.workers| ==> s.workers[w].Exited?)
    && (!s.cancelled && (exists w :: 0 <= w < |s.workers| && s.workers[w].Exited?) ==> s.tasks == [] && !s.producing)
  }

  ghost predicate FlowInv(c: Config, s: State) {
    BoundsInv(c, s) && ExitInv(s)
  }

  ghost predicate Inv(c: Config, s: State) {
    FlowInv(c, s) && Conserved(s) && (c.strategy.Ordered? ==> OrderInv(s))
  }

  lemma InitEstablishesInv(c: Config)
    ensures Inv(c, Init(c))
  {
    forall i: nat
      ensures Copies(Init(c), i) == 0
    {
      NothingHeld(seq(c.workers, _ => Idle), i);
    }
  }

  lemma CopiesAfterWorker(c: Config, s: State, a: Action, i: nat)
    requires Enabled(c, s, a) && OfWorker(a)
    ensures Copies(Apply(c, s, a), i) == Copies(s, i)
  {
    if a.Send? {
      CopiesAfterSend(c, s, a.w, i);
    } else if a.Discard? || a.Check? {
      CopiesAfterDrop(c, s, a, i);
    } else {
      HeldAfterSet(s.workers, a.w, Apply(c, s, a).workers[a.w], i);
    }
  }

  lemma CopiesAfterSend(c: Config, s: State, w: nat, i: nat)
    requires Enabled(c, s, Send(w))
    ensures Copies(Apply(c, s, Send(w)), i) == Copies(s, i)
  {
    HeldAfterSet(s.workers, w, Idle, i);
    QueuedAppend(s.results, Outcome(s.workers[w].index, s.workers[w].ok), i);
  }

  lemma CopiesAfterDrop(c: Config, s: State, a: Action, i: nat)
    requires Enabled(c, s, a) && (a.Discard? || a.Check?)
    ensures Copies(Apply(c, s, a), i) == Copies(s, i)
  {
    HeldAfterSet(s.workers, a.w, Apply(c, s, a).workers[a.w], i);
    TimesAppend(s.dropped, s.workers[a.w].index, i);
  }

  lemma CopiesAfterReceive(c: Config, s: State, i: nat)
    requires Enabled(c, s, Receive) && Copies(s, s.results[0].index) <= 1
    ensures Copies(Received(c, s), i) == Copies(s, i)
  {
    if s.cancelled || !s.results[0].ok {
      TimesAppend(s.dropped, s.results[0].index, i);
    } else {
      CopiesAfterKeeping(c, s, i);
    }
  }

  lemma CopiesAfterKeeping(c: Config, s: State, i: nat)
    requires Enabled(c, s, Receive) && Copies(s, s.results[0].index) <= 1 && !s.cancelled && s.results[0].ok
    ensures Copies(Received(c, s), i) == Copies(s, i)
  {
    var (t, res) := (Received(c, s), s.results[0]);
    assert res.index !in s.pending && t.results == s.results[1..];
    assert Queued(s.results, i) == (if res.index == i then 1 else 0) + Queued(t.results, i);
    assert (t.tasks, t.workers, t.handled, t.dropped) == (s.tasks, s.workers, s.handled, s.dropped);
    assert t.pending == s.pending || (t.pending == s.pending + {res.index} && t.collector == s.collector);
  }

  lemma CopiesAfterHandle(c: Config, s: State, ok: bool, i: nat)
    requires s.collector.Handling?
    ensures Copies(Handled(c, s, ok), i) == Copies(s, i)
  {
    var t := Handled(c, s, ok);
    TimesAppend(s.handled, s.collector.index, i);
    assert Times(t.handled, i) == Times(s.handled, i) + if s.collector == Handling(i) then 1 else 0;
    var next := s.nextIndex + 1;
    if ok && c.strategy.Ordered? && next in s.pending {
      assert t.collector == Handling(next) && t.pending == s.pending - {next};
      assert i in t.pending <==> i in s.pending && i != next;
    } else {
      assert t.collector == Receiving && t.pending == s.pending;
    }
  }

  lemma StepConserves(c: Config, s: State, a: Action)
    requires Conserved(s) && Enabled(c, s, a)
    ensures Conserved(Apply(c, s, a))
  {
    forall i: nat
      ensures Copies(Apply(c, s, a), i) == if i < Apply(c, s, a).produced then 1 else 0
    {
      assert Copies(s, i) == if i < s.produced then 1 else 0;
      if a.Receive? {
        assert Copies(s, s.results[0].index) <= 1;
      }
      CopiesAfterStep(c, s, a, i);
    }
  }

  /** Producing adds a task; every other step leaves each one in as many places as before. */
  lemma CopiesAfterStep(c: Config, s: State, a: Action, i: nat)
    requires Enabled(c, s, a) && (a.Receive? ==> Copies(s, s.results[0].index) <= 1)
    ensures Copies(Apply(c, s, a), i) == Copies(s, i) + if a.Produce? && i == s.produced then 1 else 0
  {
    match a {
      case Produce => TimesAppend(s.tasks, s.produced, i);
      case StopProducing =>
      case CloseResults =>
      case Cancel =>
      case Receive => CopiesAfterReceive(c, s, i);
      case Handle(ok) => CopiesAfterHandle(c, s, ok, i);
      case _ => CopiesAfterWorker(c, s, a, i);
    }
  }

  lemma StepKeepsBounds(c: Config, s: State, a: Action)
    requires BoundsInv(c, s) && Enabled(c, s, a)
    ensures BoundsInv(c, Apply(c, s, a))
  {
    if a.Receive? {
      ReceiveKeepsBounds(c, s);
    } else if a.Handle? {
      HandleKeepsBounds(c, s, a.ok);
    } else if OfWorker(a) {
      WorkerKeepsBounds(c, s, a);
    }
  }

  /** Steps of the workers. */
  predicate OfWorker(a: Action) {
    a.Take? || a.Check? || a.Compress? || a.Send? || a.Discard? || a.Exit?
  }

  lemma ReceiveKeepsBounds(c: Config, s: State)
    requires BoundsInv(c, s) && Enabled(c, s, Receive)
    ensures BoundsInv(c, Received(c, s))
  {
  }

  lemma HandleKeepsBounds(c: Config, s: State, ok: bool)
    requires BoundsInv(c, s) && Enabled(c, s, Handle(ok))
    ensures BoundsInv(c, Handled(c, s, ok))
  {
  }

  lemma WorkerKeepsBounds(c: Config, s: State, a: Action)
    requires BoundsInv(c, s) && Enabled(c, s, a) && OfWorker(a)
    ensures BoundsInv(c, Apply(c, s, a))
  {
  }

  lemma StepKeepsExits(c: Config, s: State, a: Action)
    requires ExitInv(s) && Enabled(c, s, a)
    ensures ExitInv(Apply(c, s, a))
  {
    if OfWorker(a) {
      WorkerKeepsExits(c, s, a);
    } else {
      OthersKeepExits(c, s, a);
    }
  }

  lemma WorkerKeepsExits(c: Config, s: State, a: Action)
    requires ExitInv(s) && Enabled(c, s, a) && OfWorker(a)
    ensures ExitInv(Apply(c, s, a))
  {
    var t := Apply(c, s, a);
    if !t.cancelled && !a.Exit? {
      forall w | 0 <= w < |t.workers| && t.workers[w].Exited?
        ensures t.tasks == [] && !t.producing
      {
        assert s.workers[w].Exited?;
      }
    }
  }

  /** The other goroutines leave the workers alone. */
  lemma OthersKeepExits(c: Config, s: State, a: Action)
    requires ExitInv(s) && Enabled(c, s, a) && !OfWorker(a)
    ensures ExitInv(Apply(c, s, a))
  {
    if a.Receive? || a.Handle? {
      CollectorKeepsExits(c, s, a);
    }
  }

  lemma CollectorKeepsExits(c: Config, s: State, a: Action)
    requires ExitInv(s) && Enabled(c, s, a) && (a.Receive? || a.Handle?)
    ensures ExitInv(Apply(c, s, a))
  {
    var t := if a.Receive? then Received(c, s) else Handled(c, s, a.ok);
    assert (t.workers, t.tasks, t.producing, t.resultsClosed) == (s.workers, s.tasks, s.producing, s.resultsClosed);
    assert s.cancelled ==> t.cancelled;
  }

  lemma StepKeepsOrder(c: Config, s: State, a: Action)
    requires OrderInv(s) && Enabled(c, s, a) && c.strategy.Ordered?
    ensures OrderInv(Apply(c, s, a))
  {
    if a.Handle? {
      HandleKeepsOrder(c, s, a.ok);
    } else if a.Receive? {
      ReceiveKeepsOrder(c, s);
    }
  }

  lemma HandleKeepsOrder(c: Config, s: State, ok: bool)
    requires OrderInv(s) && Enabled(c, s, Handle(ok)) && c.strategy.Ordered?
    ensures OrderInv(Handled(c, s, ok))
  {
    assert Range(s.nextIndex + 1) == Range(s.nextIndex) + [s.nextIndex];
  }

  lemma ReceiveKeepsOrder(c: Config, s: State)
    requires OrderInv(s) && Enabled(c, s, Receive) && c.strategy.Ordered?
    ensures OrderInv(Received(c, s))
  {
  }

  /** Every step of every goroutine keeps the invariant. */
  lemma StepKeepsInv(c: Config, s: State, a: Action)
    requires Inv(c, s) && Enabled(c, s, a)
    ensures Inv(c, Apply(c, s, a))
  {
    StepKeepsBounds(c, s, a);
    StepKeepsExits(c, s, a);
    StepConserves(c, s, a);
    if c.strategy.Ordered? {
      StepKeepsOrder(c, s, a);
    }
  }

  lemma {:induction false} RunKeepsInv(c: Config, schedule: seq<Action>, ss: seq<State>, i: nat)
    requires IsRun(c, schedule, ss) && i < |ss|
    ensures Inv(c, ss[i])
  {
    if i == 0 {
      InitEstablishesInv(c);
    } else {
      RunKeepsInv(c, schedule, ss, i - 1);
      assert Enabled(c, ss[i - 1], schedule[i - 1]) && ss[i - 1 + 1] == Apply(c, ss[i - 1], schedule[i - 1]);
      StepKeepsInv(c, ss[i - 1], schedule[i - 1]);
    }
  }

  lemma ReachableInv(c: Config, s: State)
    requires Reachable(c, s)
    ensures Inv(c, s)
  {
    var schedule, ss :| IsRun(c, schedule, ss) && ss[|ss| - 1] == s;
    RunKeepsInv(c, schedule, ss, |ss| - 1);
  }

  // ---------------------------------------------------------------- safety over every run

  /** Under the ordered strategy results reach the archive in the order 0, 1, 2, ... whatever the
      interleaving, the failures and the moment of cancellation. */
  lemma OrderedWritesInOrder(c: Config, s: State)
    requires Reachable(c, s) && c.strategy.Ordered?
    ensures s.handled == Range(|s.handled|)
    ensures |s.handled| <= c.files
  {
    ReachableInv(c, s);
    var n := |s.handled|;
    if n > 0 {
      WrittenAtMostOnce(c, s, n - 1);
      assert s.handled[n - 1] in s.handled;
    }
  }

  /** No strategy ever writes an index twice, writes one that is also dropped, or invents one. */
  lemma WrittenAtMostOnce(c: Config, s: State, i: nat)
    requires Reachable(c, s)
    ensures Times(s.handled, i) + Times(s.dropped, i) <= 1
    ensures i in s.handled ==> i < c.files
  {
    ReachableInv(c, s);
    TimesPositive(s.handled, i);
    assert Copies(s, i) == if i < s.produced then 1 else 0;
  }

  /** When `WriteFiles` returns without an error or a cancellation, every file has been written
      exactly once and nothing is left in the reorder map, provided there was a worker or nothing
      to do; the ordered strategy has then written the files in exactly the given order. */
  lemma CleanRunWritesAll(c: Config, s: State)
    requires Reachable(c, s) && Returned(s) && !s.cancelled
    requires c.workers > 0 || c.files == 0
    ensures forall i: nat :: Times(s.handled, i) == if i < c.files then 1 else 0
    ensures c.strategy.Ordered? ==> s.handled == Range(c.files)
    ensures s.pending == {}
  {
    ReachableInv(c, s);
    if c.workers > 0 {
      assert s.workers[0].Exited?;
    }
    assert s.produced == c.files;
    forall i: nat
      ensures Times(s.tasks, i) == 0 || c.workers == 0
      ensures c.workers > 0 || c.files == 0 ==>
              (if i in s.pending then 1 else 0) + Times(s.handled, i) == if i < c.files then 1 else 0
    {
      NothingHeld(s.workers, i);
      assert Copies(s, i) == if i < s.produced then 1 else 0;
    }
    if c.strategy.Ordered? {
      OrderedPendingEmpty(c, s);
    }
  }

  lemma OrderedPendingEmpty(c: Config, s: State)
    requires OrderInv(s) && !s.cancelled
    requires forall i: nat :: (if i in s.pending then 1 else 0) + Times(s.handled, i) == if i < c.files then 1 else 0
    ensures s.pending == {} && s.nextIndex == c.files
  {
    RangeOnce(s.nextIndex, s.nextIndex);
    RangeOnce(s.nextIndex, c.files);
    forall i | i in s.pending
      ensures false
    {
      RangeOnce(s.nextIndex, i);
    }
  }

  /** Without workers a run returns at once, with no error and nothing written: the side condition
      of `CleanRunWritesAll` cannot be dropped. */
  lemma NoWorkersWriteNothing(files: nat, strategy: Strategy)
    requires files > 0
    ensures exists s :: Reachable(Config(files, 0, strategy), s) && Returned(s) && !s.cancelled && s.handled == []
  {
    var c := Config(files, 0, strategy);
    var t := Apply(c, Init(c), CloseResults);
    assert IsRun(c, [CloseResults], [Init(c), t]);
    assert Reachable(c, t) by {
      assert [Init(c), t][|[Init(c), t]| - 1] == t;
    }
  }

  // ---------------------------------------------------------------- progress

  /** As long as `WriteFiles` has not returned, some goroutine other than the one that cancels can
      take a step: no interleaving deadlocks, before or after a cancellation. */
  lemma NeverDeadlocks(c: Config, s: State)
    requires Reachable(c, s) && !Returned(s)
    ensures exists a :: a != Cancel && Enabled(c, s, a)
  {
    ReachableInv(c, s);
    if s.collector.Handling? {
      assert Enabled(c, s, Handle(true));
    } else if s.results != [] {
      assert Enabled(c, s, Receive);
    } else if forall w :: 0 <= w < |s.workers| ==> s.workers[w].Exited? {
      assert Enabled(c, s, CloseResults);
    } else {
      var w: nat :| w < |s.workers| && !s.workers[w].Exited?;
      match s.workers[w] {
        case Took(_) => assert Enabled(c, s, Check(w));
        case Compressing(_) => assert Enabled(c, s, Compress(w, true));
        case Sending(_, _) => assert Enabled(c, s, Send(w));
        case Idle =>
          if s.tasks != [] {
            assert Enabled(c, s, Take(w));
          } else if !s.producing {
            assert Enabled(c, s, Exit(w));
          } else if s.produced < c.files {
            assert Enabled(c, s, Produce);
          } else {
            assert Enabled(c, s, StopProducing);
          }
      }
    }
  }

  function Weight(w: Worker): nat {
    match w
    case Idle => 1
    case Took(_) => 7
    case Compressing(_) => 6
    case Sending(_, _) => 5
    case Exited => 0
  }

  function WeightOfAll(ws: seq<Worker>): nat {
    if ws == [] then 0 else Weight(ws[0]) + WeightOfAll(ws[1..])
  }

  lemma {:induction false} WeightAfterSet(ws: seq<Worker>, w: nat, x: Worker)
    requires w < |ws|
    ensures WeightOfAll(ws[w := x]) + Weight(ws[w]) == WeightOfAll(ws) + Weight(x)
  {
    if w == 0 {
      assert ws[0 := x][1..] == ws[1..];
    } else {
      assert ws[w := x][1..] == ws[1..][w - 1 := x];
      WeightAfterSet(ws[1..], w - 1, x);
    }
  }

  /** The steps that can still happen: what is left of each task's way through the pipeline. */
  function Measure(c: Config, s: State): int {
    8 * (c.files - s.produced) + (if s.producing then 1 else 0) + 7 * |s.tasks| + WeightOfAll(s.workers)
    + 3 * |s.results| + 2 * |s.pending| + (if s.collector.Handling? then 1 else 0)
    + (if s.resultsClosed then 0 else 1) + (if s.cancelled then 0 else 1)
  }

  lemma WorkerStepDecreases(c: Config, s: State, a: Action)
    requires Enabled(c, s, a) && OfWorker(a)
    ensures Measure(c, Apply(c, s, a)) < Measure(c, s)
  {
    if a.Send? {
      SendDecreases(c, s, a.w);
    } else {
      WeightAfterSet(s.workers, a.w, Apply(c, s, a).workers[a.w]);
    }
  }

  lemma SendDecreases(c: Config, s: State, w: nat)
    requires Enabled(c, s, Send(w))
    ensures Measure(c, Apply(c, s, Send(w))) < Measure(c, s)
  {
    WeightAfterSet(s.workers, w, Idle);
  }

  lemma AddOne(p: set<nat>, i: nat)
    ensures |p + {i}| <= |p| + 1
  {
    if i in p {
      assert p + {i} == p;
    }
  }

  lemma ReceiveDecreases(c: Config, s: State)
    requires Enabled(c, s, Receive)
    ensures Measure(c, Received(c, s)) < Measure(c, s)
  {
    AddOne(s.pending, s.results[0].index);
  }

  lemma HandleDecreases(c: Config, s: State, ok: bool)
    requires s.collector.Handling?
    ensures Measure(c, Handled(c, s, ok)) < Measure(c, s)
  {
    if ok && c.strategy.Ordered? && s.nextIndex + 1 in s.pending {
      NextDecreases(c, s);
    } else {
      assert Handled(c, s, ok).pending == s.pending;
    }
  }

  lemma NextDecreases(c: Config, s: State)
    requires s.collector.Handling? && c.strategy.Ordered? && s.nextIndex + 1 in s.pending
    ensures Measure(c, Handled(c, s, true)) < Measure(c, s)
  {
    OneLess(s.pending, s.nextIndex + 1);
  }

  /** Every step, of any goroutine, uses up part of the measure. */
  lemma StepDecreases(c: Config, s: State, a: Action)
    requires Inv(c, s) && Enabled(c, s, a)
    ensures 0 <= Measure(c, Apply(c, s, a)) < Measure(c, s)
  {
    StepKeepsInv(c, s, a);
    match a {
      case Produce =>
      case StopProducing =>
      case CloseResults =>
      case Cancel =>
      case Receive => ReceiveDecreases(c, s);
      case Handle(ok) => HandleDecreases(c, s, ok);
      case _ => WorkerStepDecreases(c, s, a);
    }
  }

  lemma {:induction false} FreshWorkersWeigh(n: nat)
    ensures WeightOfAll(seq(n, _ => Idle)) == n
  {
    if n > 0 {
      assert seq(n, _ => Idle)[1..] == seq(n - 1, _ => Idle);
      FreshWorkersWeigh(n - 1);
    }
  }

  lemma {:induction false} RunSpendsMeasure(c: Config, schedule: seq<Action>, ss: seq<State>, i: nat)
    requires IsRun(c, schedule, ss) && i < |ss|
    ensures 0 <= Measure(c, ss[i]) <= Measure(c, Init(c)) - i
  {
    if i > 0 {
      RunSpendsMeasure(c, schedule, ss, i - 1);
      RunStepDecreases(c, schedule, ss, i - 1);
    }
  }

  lemma RunStepDecreases(c: Config, schedule: seq<Action>, ss: seq<State>, i: nat)
    requires IsRun(c, schedule, ss) && i < |schedule|
    ensures 0 <= Measure(c, ss[i + 1]) < Measure(c, ss[i])
  {
    RunKeepsInv(c, schedule, ss, i);
    assert Enabled(c, ss[i], schedule[i]) && ss[i + 1] == Apply(c, ss[i], schedule[i]);
    StepDecreases(c, ss[i], schedule[i]);
  }

  /** Every run is finite: with `n` files and `k` workers no schedule has more than 8n + k + 3 steps. */
  lemma EveryRunEnds(c: Config, schedule: seq<Action>, ss: seq<State>)
    requires IsRun(c, schedule, ss)
    ensures |schedule| <= 8 * c.files + c.workers + 3
  {
    RunSpendsMeasure(c, schedule, ss, |schedule|);
    FreshWorkersWeigh(c.workers);
  }

  // ---------------------------------------------------------------- buffered results

  ghost predicate HoldsBuffer(w: Worker) {
    w.Compressing? || w.Sending?
  }

  ghost function Busy(ws: seq<Worker>): nat {
    if ws == [] then 0 else (if HoldsBuffer(ws[0]) then 1 else 0) + Busy(ws[1..])
  }

  /** Compressed results alive at once: in workers, in the channel, being written, or waiting their turn. */
  ghost function Buffered(s: State): nat {
    Busy(s.workers) + |s.results| + |s.pending| + if s.collector.Handling? then 1 else 0
  }

  /** The workers that have a task. */
  ghost function Loaded(ws: seq<Worker>): nat {
    if ws == [] then 0 else (if ws[0].Idle? || ws[0].Exited? then 0 else 1) + Loaded(ws[1..])
  }

  lemma {:induction false} BusyAtMostLoaded(ws: seq<Worker>)
    ensures Busy(ws) <= Loaded(ws) <= |ws|
  {
    if ws != [] {
      BusyAtMostLoaded(ws[1..]);
    }
  }

  lemma {:induction false} LoadedAfterSet(ws: seq<Worker>, w: nat, x: Worker)
    requires w < |ws|
    ensures Loaded(ws[w := x]) + Loaded([ws[w]]) == Loaded(ws) + Loaded([x])
  {
    assert [x][1..] == [] && [ws[w]][1..] == [];
    if w == 0 {
      assert ws[0 := x][1..] == ws[1..];
    } else {
      assert ws[w := x][1..] == ws[1..][w - 1 := x];
      LoadedAfterSet(ws[1..], w - 1, x);
    }
  }

  lemma {:induction false} NoneLoaded(n: nat)
    ensures Loaded(seq(n, _ => Idle)) == 0
  {
    if n > 0 {
      assert seq(n, _ => Idle)[1..] == seq(n - 1, _ => Idle);
      NoneLoaded(n - 1);
    }
  }

  /** All tasks, counted by the places they are in. */
  ghost function InPlaces(s: State): nat {
    |s.tasks| + Loaded(s.workers) + |s.results| + |s.pending| + (if s.collector.Handling? then 1 else 0) +
      |s.handled| + |s.dropped|
  }

  lemma StepKeepsCount(c: Config, s: State, a: Action)
    requires Conserved(s) && Enabled(c, s, a) && InPlaces(s) == s.produced
    ensures InPlaces(Apply(c, s, a)) == Apply(c, s, a).produced
  {
    match a {
      case Produce =>
      case StopProducing =>
      case CloseResults =>
      case Cancel =>
      case Receive =>
        NotPending(s);
        ReceiveKeepsCount(c, s);
      case Handle(ok) => HandleKeepsCount(c, s, ok);
      case _ => WorkerKeepsCount(c, s, a);
    }
  }

  lemma HandleKeepsCount(c: Config, s: State, ok: bool)
    requires s.collector.Handling? && InPlaces(s) == s.produced
    ensures InPlaces(Handled(c, s, ok)) == s.produced
  {
    if ok && c.strategy.Ordered? && s.nextIndex + 1 in s.pending {
      NextKeepsCount(c, s);
    } else {
      var t := Handled(c, s, ok);
      assert t.pending == s.pending && t.collector == Receiving && |t.handled| == |s.handled| + 1;
    }
  }

  lemma NextKeepsCount(c: Config, s: State)
    requires s.collector.Handling? && c.strategy.Ordered? && s.nextIndex + 1 in s.pending
    ensures InPlaces(Handled(c, s, true)) == InPlaces(s)
  {
    OneLess(s.pending, s.nextIndex + 1);
  }

  lemma OneLess(p: set<nat>, i: nat)
    ensures |p - {i}| == |p| - if i in p then 1 else 0
  {
    if i in p {
      assert p == (p - {i}) + {i};
    } else {
      assert p - {i} == p;
    }
  }

  lemma WorkerKeepsCount(c: Config, s: State, a: Action)
    requires Enabled(c, s, a) && InPlaces(s) == s.produced && OfWorker(a)
    ensures InPlaces(Apply(c, s, a)) == s.produced
  {
    var t := Apply(c, s, a);
    LoadedAfterSet(s.workers, a.w, t.workers[a.w]);
    OneLoaded(s.workers[a.w]);
    OneLoaded(t.workers[a.w]);
  }

  lemma OneLoaded(w: Worker)
    ensures Loaded([w]) == if w.Idle? || w.Exited? then 0 else 1
  {
    assert [w][1..] == [];
  }

  lemma NotPending(s: State)
    requires Conserved(s) && s.results != []
    ensures s.results[0].index !in s.pending
  {
    assert Copies(s, s.results[0].index) <= 1;
  }

  lemma ReceiveKeepsCount(c: Config, s: State)
    requires Enabled(c, s, Receive) && s.results[0].index !in s.pending && InPlaces(s) == s.produced
    ensures InPlaces(Received(c, s)) == s.produced
  {
    var t := Received(c, s);
    OneMore(s.pending, s.results[0].index);
    assert t.tasks == s.tasks && t.workers == s.workers && |t.results| == |s.results| - 1 && t.handled == s.handled;
  }

  lemma OneMore(p: set<nat>, i: nat)
    requires i !in p
    ensures |p + {i}| == |p| + 1
  {
  }

  /** The tasks on their way to the collector, oldest first, with one worker at most. */
  ghost function Pipe(s: State): seq<nat> {
    (if s.collector.Handling? then [s.collector.index] else []) + Indices(s.results) + TaskOf(s.workers) + s.tasks
  }

  ghost function TaskOf(ws: seq<Worker>): seq<nat> {
    if ws == [] || ws[0].Idle? || ws[0].Exited? then [] else [ws[0].index]
  }

  ghost function Indices(rs: seq<Outcome>): (r: seq<nat>)
    ensures |r| == |rs| && forall i :: 0 <= i < |rs| ==> r[i] == rs[i].index
  {
    seq(|rs|, i requires 0 <= i < |rs| => rs[i].index)
  }

  ghost predicate Consecutive(p: seq<nat>, from: nat, to: nat) {
    from + |p| == to && forall i :: 0 <= i < |p| ==> p[i] == from + i
  }

  /** With one worker at most results arrive in the order of the tasks, so none has to wait. */
  ghost predicate InTurn(s: State) {
    |s.workers| <= 1 && s.pending == {} && (!s.cancelled ==> Consecutive(Pipe(s), s.nextIndex, s.produced))
  }

  /** Every step keeps the tasks on their way in turn. */
  lemma StepInTurn(c: Config, s: State, a: Action)
    requires InTurn(s) && Enabled(c, s, a) && c.strategy.Ordered?
    ensures InTurn(Apply(c, s, a))
  {
    match a {
      case Produce => ProducedInTurn(c, s);
      case Receive => ReceivedInTurn(c, s);
      case Handle(ok) => HandledInTurn(c, s, ok);
      case StopProducing =>
      case CloseResults =>
      case Cancel =>
      case _ => WorkedInTurn(c, s, a);
    }
  }

  lemma ProducedInTurn(c: Config, s: State)
    requires InTurn(s) && Enabled(c, s, Produce)
    ensures InTurn(Apply(c, s, Produce))
  {
    assert Pipe(Apply(c, s, Produce)) == Pipe(s) + [s.produced];
  }

  lemma WorkedInTurn(c: Config, s: State, a: Action)
    requires InTurn(s) && Enabled(c, s, a) && OfWorker(a)
    ensures InTurn(Apply(c, s, a))
  {
    var h := if s.collector.Handling? then [s.collector.index] else [];
    if a.Take? {
      MoveTask(Indices(s.results), s.tasks, h);
    } else if a.Send? {
      MoveResult(s, a.w);
      Regrouped(h, Indices(Apply(c, s, a).results), [], Indices(s.results), [s.workers[a.w].index], s.tasks);
    }
  }

  lemma Regrouped(h: seq<nat>, a: seq<nat>, b: seq<nat>, a': seq<nat>, b': seq<nat>, t: seq<nat>)
    requires a + b == a' + b'
    ensures h + a + b + t == h + a' + b' + t
  {
    assert h + a + b == h + (a + b) && h + a' + b' == h + (a' + b');
  }

  lemma MoveTask(r: seq<nat>, tasks: seq<nat>, h: seq<nat>)
    requires tasks != []
    ensures h + r + [] + tasks == h + r + [tasks[0]] + tasks[1..]
  {
    assert tasks == [tasks[0]] + tasks[1..];
  }

  lemma MoveResult(s: State, w: nat)
    requires w < |s.workers| && s.workers[w].Sending?
    ensures Indices(s.results + [Outcome(s.workers[w].index, s.workers[w].ok)]) + [] ==
            Indices(s.results) + [s.workers[w].index]
  {
  }

  lemma HandledInTurn(c: Config, s: State, ok: bool)
    requires InTurn(s) && s.collector.Handling? && c.strategy.Ordered?
    ensures InTurn(Handled(c, s, ok))
  {
    if ok {
      assert Pipe(Handled(c, s, ok)) == Pipe(s)[1..];
    }
  }

  lemma ReceivedInTurn(c: Config, s: State)
    requires InTurn(s) && Enabled(c, s, Receive) && c.strategy.Ordered?
    ensures InTurn(Received(c, s))
  {
    if !s.cancelled && s.results[0].ok {
      FirstInPipe(s);
      SamePipe(s, s.(results := s.results[1..], collector := Handling(s.results[0].index)));
    }
  }

  lemma FirstInPipe(s: State)
    requires s.collector.Receiving? && s.results != []
    ensures Pipe(s) != [] && Pipe(s)[0] == s.results[0].index
  {
  }

  lemma SamePipe(s: State, t: State)
    requires s.collector.Receiving? && s.results != []
    requires t == s.(results := s.results[1..], collector := Handling(s.results[0].index))
    ensures Pipe(t) == Pipe(s)
  {
    assert Indices(s.results) == [s.results[0].index] + Indices(s.results[1..]);
    MoveFront(s.results[0].index, Indices(s.results[1..]), TaskOf(s.workers), s.tasks);
  }

  lemma MoveFront(x: nat, r: seq<nat>, h: seq<nat>, t: seq<nat>)
    ensures [x] + r + h + t == [] + ([x] + r) + h + t
  {
  }

  lemma {:induction false} RunKeepsBounds(c: Config, schedule: seq<Action>, ss: seq<State>, i: nat)
    requires IsRun(c, schedule, ss) && i < |ss|
    ensures InPlaces(ss[i]) == ss[i].produced && (c.strategy.Ordered? && c.workers <= 1 ==> InTurn(ss[i]))
  {
    if i == 0 {
      NoneLoaded(c.workers);
    } else {
      var (s, a) := (ss[i - 1], schedule[i - 1]);
      RunKeepsBounds(c, schedule, ss, i - 1);
      RunKeepsInv(c, schedule, ss, i - 1);
      assert Enabled(c, s, a) && ss[i - 1 + 1] == Apply(c, s, a);
      StepKeepsCount(c, s, a);
      if c.strategy.Ordered? && c.workers <= 1 {
        StepInTurn(c, s, a);
      }
    }
  }

  function Least(a: nat, b: nat): nat { if a < b then a else b }

  /** The most results that are ever alive at once. */
  function MaxBuffered(c: Config): nat {
    if c.workers == 0 then 0
    else if c.strategy.Ordered? && c.workers >= 2 then c.files
    else Least(c.files, 3 * c.workers + 1)
  }

  /** No interleaving exceeds that number. */
  lemma BufferBound(c: Config, s: State)
    requires Reachable(c, s)
    ensures Buffered(s) <= MaxBuffered(c)
    ensures c.strategy.Performance? || c.workers <= 1 ==> s.pending == {}
  {
    ReachableInv(c, s);
    BusyAtMostLoaded(s.workers);
    var schedule, ss :| IsRun(c, schedule, ss) && ss[|ss| - 1] == s;
    RunKeepsBounds(c, schedule, ss, |ss| - 1);
    if c.workers == 0 {
      NothingToHandle(c, schedule, ss, |ss| - 1);
    }
  }

  lemma {:induction false} NothingToHandle(c: Config, schedule: seq<Action>, ss: seq<State>, i: nat)
    requires IsRun(c, schedule, ss) && i < |ss| && c.workers == 0
    ensures ss[i].collector.Receiving? && ss[i].pending == {}
  {
    if i > 0 {
      NothingToHandle(c, schedule, ss, i - 1);
      ResultsBounded(c, schedule, ss, i - 1);
      assert Enabled(c, ss[i - 1], schedule[i - 1]) && ss[i - 1 + 1] == Apply(c, ss[i - 1], schedule[i - 1]);
      StillNothing(c, ss[i - 1], schedule[i - 1]);
    }
  }

  lemma ResultsBounded(c: Config, schedule: seq<Action>, ss: seq<State>, i: nat)
    requires IsRun(c, schedule, ss) && i < |ss|
    ensures |ss[i].results| <= 2 * c.workers
  {
    RunKeepsInv(c, schedule, ss, i);
  }

  lemma StillNothing(c: Config, s: State, a: Action)
    requires Enabled(c, s, a) && s.results == [] && s.collector.Receiving? && s.pending == {}
    ensures Apply(c, s, a).collector.Receiving? && Apply(c, s, a).pending == {}
  {
  }

  lemma ReachableStep(c: Config, s: State, a: Action)
    requires Reachable(c, s) && Enabled(c, s, a)
    ensures Reachable(c, Apply(c, s, a))
  {
    var schedule, ss :| IsRun(c, schedule, ss) && ss[|ss| - 1] == s;
    var ss' := ss + [Apply(c, s, a)];
    assert IsRun(c, schedule + [a], ss');
    assert ss'[|ss'| - 1] == Apply(c, s, a);
  }

  lemma InitReachable(c: Config)
    ensures Reachable(c, Init(c))
  {
    var ss := [Init(c)];
    assert IsRun(c, [], ss);
    assert ss[|ss| - 1] == Init(c);
  }

  ghost function UpTo(i: nat): (r: set<nat>)
    ensures |r| == i && forall j :: j in r <==> 1 <= j <= i
  {
    if i == 0 then {} else UpTo(i - 1) + {i}
  }

  /** Worker 0 still compresses file 0 while the others have delivered the files 1 to `i`. */
  ghost function Stalled(c: Config, i: nat): State
    requires c.workers >= 2
  {
    Init(c).(produced := i + 1, pending := UpTo(i), workers := Init(c).workers[0 := Compressing(0)])
  }

  lemma {:induction false} StalledReachable(c: Config, i: nat)
    requires c.workers >= 2 && c.strategy.Ordered? && i < c.files
    ensures Reachable(c, Stalled(c, i))
  {
    if i == 0 {
      InitReachable(c);
      Started(c, Init(c), 0);
      assert Start(c, Init(c), 0) == Stalled(c, 0);
    } else {
      StalledReachable(c, i - 1);
      OneMoreStalled(c, i);
    }
  }

  /** The next file is produced and taken by worker `w`. */
  ghost function Start(c: Config, s: State, w: nat): State
    requires w < |s.workers|
  {
    s.(produced := s.produced + 1, workers := s.workers[w := Compressing(s.produced)])
  }

  lemma Started(c: Config, s: State, w: nat)
    requires Reachable(c, s) && s.producing && s.produced < c.files && s.tasks == [] && !s.cancelled
    requires w < |s.workers| && s.workers[w].Idle?
    ensures Reachable(c, Start(c, s, w))
  {
    ThreeSteps(c, s, Produce, Take(w), Check(w));
    assert Apply(c, Apply(c, Apply(c, s, Produce), Take(w)), Check(w)) == Start(c, s, w);
  }

  /** Worker `w` delivers its result. */
  ghost function Deliver(s: State, w: nat): State
    requires w < |s.workers| && s.workers[w].Compressing?
  {
    s.(results := s.results + [Outcome(s.workers[w].index, true)], workers := s.workers[w := Idle])
  }

  lemma Delivered(c: Config, s: State, w: nat)
    requires Reachable(c, s) && w < |s.workers| && s.workers[w].Compressing? && |s.results| < 2 * c.workers
    ensures Reachable(c, Deliver(s, w))
  {
    ReachableStep(c, s, Compress(w, true));
    var t := Apply(c, s, Compress(w, true));
    ReachableStep(c, t, Send(w));
    assert Apply(c, t, Send(w)) == Deliver(s, w);
  }

  lemma OneMoreStalled(c: Config, i: nat)
    requires c.workers >= 2 && c.strategy.Ordered? && 0 < i < c.files && Reachable(c, Stalled(c, i - 1))
    ensures Reachable(c, Stalled(c, i))
  {
    var s0 := Stalled(c, i - 1);
    Started(c, s0, 1);
    var s1 := Start(c, s0, 1);
    Delivered(c, s1, 1);
    var s2 := Deliver(s1, 1);
    assert s2.workers == s0.workers && s2.results == [Outcome(i, true)];
    KeptStalled(c, s2, i);
  }

  /** The collector puts the result aside. */
  lemma KeptStalled(c: Config, s: State, i: nat)
    requires c.workers >= 2 && c.strategy.Ordered? && 0 < i < c.files && Reachable(c, s)
    requires s.collector.Receiving? && !s.cancelled && s.nextIndex == 0 && s.results == [Outcome(i, true)]
    requires s.(results := [], pending := s.pending + {i}) == Stalled(c, i)
    ensures Reachable(c, Stalled(c, i))
  {
    ReachableStep(c, s, Receive);
    assert s.results[1..] == [];
  }

  lemma ThreeSteps(c: Config, s: State, a: Action, b: Action, d: Action)
    requires Reachable(c, s) && Enabled(c, s, a) && Enabled(c, Apply(c, s, a), b)
    requires Enabled(c, Apply(c, Apply(c, s, a), b), d)
    ensures Reachable(c, Apply(c, Apply(c, Apply(c, s, a), b), d))
  {
    ReachableStep(c, s, a);
    ReachableStep(c, Apply(c, s, a), b);
    ReachableStep(c, Apply(c, Apply(c, s, a), b), d);
  }

  /** One slow first file makes the reorder map hold every other file of the archive, however few
      workers there are. */
  lemma OrderedFillsUp(c: Config)
    requires c.workers >= 2 && c.strategy.Ordered? && c.files > 0
    ensures exists s :: Reachable(c, s) && |s.pending| == c.files - 1 && Buffered(s) == c.files
  {
    var s := Stalled(c, c.files - 1);
    StalledReachable(c, c.files - 1);
    OneBusy(c.workers);
    assert Buffered(s) == c.files;
  }

  lemma OneBusy(k: nat)
    requires k > 0
    ensures Busy(seq(k, _ => Idle)[0 := Compressing(0)]) == 1
  {
    var ws := seq(k, _ => Idle)[0 := Compressing(0)];
    assert ws[1..] == seq(k - 1, _ => Idle);
    NoneLoaded(k - 1);
    BusyAtMostLoaded(ws[1..]);
  }

  /** File 0 is being written, the files 1 to `j - 1` are in the channel, and `m` workers compress the
      next ones. */
  ghost function Full(c: Config, j: nat, m: nat): State
    requires 0 < j
  {
    Init(c).(produced := j + m, collector := Handling(0),
             results := seq(j - 1, i requires 0 <= i < j - 1 => Outcome(i + 1, true)),
             workers := Compressors(c.workers, m, j))
  }

  function Compressors(k: nat, m: nat, j: nat): seq<Worker> {
    seq(k, w requires 0 <= w < k => if w < m then Compressing(j + w) else Idle)
  }

  lemma {:induction false} FullReachable(c: Config, j: nat, m: nat)
    requires c.workers > 0 && 0 < j <= 2 * c.workers + 1 && m <= c.workers && j + m <= c.files
    ensures Reachable(c, Full(c, j, m))
    decreases j + m
  {
    if m > 0 {
      FullReachable(c, j, m - 1);
      Started(c, Full(c, j, m - 1), m - 1);
      assert Start(c, Full(c, j, m - 1), m - 1) == Full(c, j, m);
    } else if j > 1 {
      FullReachable(c, j - 1, 0);
      var s := Full(c, j - 1, 0);
      Started(c, s, 0);
      Delivered(c, Start(c, s, 0), 0);
      assert Deliver(Start(c, s, 0), 0) == Full(c, j, 0);
    } else {
      FirstHandled(c);
    }
  }

  lemma FirstHandled(c: Config)
    requires c.workers > 0 && c.files > 0
    ensures Reachable(c, Full(c, 1, 0))
  {
    InitReachable(c);
    Started(c, Init(c), 0);
    var s := Start(c, Init(c), 0);
    Delivered(c, s, 0);
    var t := Deliver(s, 0);
    ReachableStep(c, t, Receive);
    assert t.workers == Init(c).workers && t.results == [Outcome(0, true)];
    assert Apply(c, t, Receive) == Full(c, 1, 0);
  }

  lemma {:induction false} BusyWorkers(k: nat, m: nat, j: nat)
    requires m <= k
    ensures Busy(Compressors(k, m, j)) == m
  {
    var ws := Compressors(k, m, j);
    if m > 0 {
      BusyWorkers(k - 1, m - 1, j + 1);
      assert ws[1..] == Compressors(k - 1, m - 1, j + 1);
    } else {
      assert ws == seq(k, _ => Idle);
      NoneLoaded(k);
      BusyAtMostLoaded(ws);
    }
  }

  /** The bound is attained for every number of files and workers and both strategies. */
  lemma BufferBoundIsTight(c: Config)
    ensures exists s :: Reachable(c, s) && Buffered(s) == MaxBuffered(c)
  {
    if MaxBuffered(c) == 0 {
      InitReachable(c);
      BufferBound(c, Init(c));
    } else if c.strategy.Ordered? && c.workers >= 2 {
      OrderedFillsUp(c);
    } else {
      var j := Least(c.files, 2 * c.workers + 1);
      var m := MaxBuffered(c) - j;
      FullReachable(c, j, m);
      BusyWorkers(c.workers, m, j);
      assert Buffered(Full(c, j, m)) == MaxBuffered(c);
    }
  }

  /** The documented bound, twice the number of workers, holds in all reachable states exactly if there
      are no more files than that, or no worker. */
  lemma DocumentedBoundIff(c: Config)
    ensures (forall s :: Reachable(c, s) ==> Buffered(s) <= 2 * c.workers) <==>
            c.files <= 2 * c.workers || c.workers == 0
  {
    if c.files <= 2 * c.workers || c.workers == 0 {
      forall s | Reachable(c, s)
        ensures Buffered(s) <= 2 * c.workers
      {
        BufferBound(c, s);
      }
    } else {
      BufferBoundIsTight(c);
    }
  }

  // ---------------------------------------------------------------- buffers that are never released

  /** All workers but the first `e` are idle, those have gone; everything else is over. */
  ghost function Leaving(c: Config, e: nat): State
    requires c.workers >= 2 && 0 < c.files
  {
    Init(c).(produced := c.files, producing := false, cancelled := true, pending := UpTo(c.files - 1), dropped := [0],
             workers := seq(c.workers, w => if w < e then Exited else Idle))
  }

  lemma {:induction false} LeavingReachable(c: Config, e: nat)
    requires c.workers >= 2 && c.strategy.Ordered? && 0 < c.files && e <= c.workers
    ensures Reachable(c, Leaving(c, e))
  {
    if e == 0 {
      AllIdle(c);
    } else {
      LeavingReachable(c, e - 1);
      ReachableStep(c, Leaving(c, e - 1), Exit(e - 1));
      assert Apply(c, Leaving(c, e - 1), Exit(e - 1)) == Leaving(c, e);
    }
  }

  lemma AllIdle(c: Config)
    requires c.workers >= 2 && c.strategy.Ordered? && 0 < c.files
    ensures Reachable(c, Leaving(c, 0))
  {
    StalledReachable(c, c.files - 1);
    var s := Stalled(c, c.files - 1);
    ReachableStep(c, s, Cancel);
    var s1 := s.(cancelled := true);
    assert Apply(c, s, Cancel) == s1;
    ReachableStep(c, s1, StopProducing);
    var s2 := s1.(producing := false);
    assert Apply(c, s1, StopProducing) == s2;
    LastDiscarded(c, s2);
  }

  lemma LastDiscarded(c: Config, s: State)
    requires c.workers >= 2 && 0 < c.files && Reachable(c, s)
    requires s == Stalled(c, c.files - 1).(cancelled := true, producing := false)
    ensures Reachable(c, Leaving(c, 0))
  {
    ReachableStep(c, s, Compress(0, true));
    var t := SetWorker(s, 0, Sending(0, true));
    assert Apply(c, s, Compress(0, true)) == t;
    ReachableStep(c, t, Discard(0));
    assert Apply(c, t, Discard(0)) == Leaving(c, 0);
  }

  /** The run is over, but a result is still in the reorder map, neither written nor discarded. */
  ghost predicate Leaks(s: State) {
    Returned(s) && exists i :: i in s.pending && i !in s.handled && i !in s.dropped
  }

  /** A run can end that way (when it is cancelled, as `CleanRunWritesAll` shows) exactly under the
      ordered strategy with two workers and two files or more. */
  lemma MayLeakIff(c: Config)
    ensures (exists s :: Reachable(c, s) && Leaks(s)) <==> c.strategy.Ordered? && c.workers >= 2 && c.files >= 2
  {
    if c.strategy.Ordered? && c.workers >= 2 && c.files >= 2 {
      LeavingReachable(c, c.workers);
      var s := Leaving(c, c.workers);
      ReachableStep(c, s, CloseResults);
      var t := Apply(c, s, CloseResults);
      assert 1 in t.pending && Leaks(t);
    }
    forall s | Reachable(c, s) && Leaks(s)
      ensures c.strategy.Ordered? && c.workers >= 2 && c.files >= 2
    {
      BufferBound(c, s);
      PendingNeedsTwo(c, s);
    }
  }

  lemma PendingNeedsTwo(c: Config, s: State)
    requires Reachable(c, s) && c.strategy.Ordered? && s.pending != {}
    ensures c.files >= 2
  {
    ReachableInv(c, s);
    assert Copies(s, 0) <= 1;
    if s.nextIndex > 0 {
      assert s.handled[0] == 0;
      TimesPositive(s.handled, 0);
    }
    var i :| i in s.pending;
    assert i != 0 && Copies(s, i) == if i < s.produced then 1 else 0;
  }
}
