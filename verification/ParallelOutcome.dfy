/** What the results of a parallel run mean: which tasks were compressed and how that ended, what is
    handled, and what cancels a run. */
module ParallelOutcome {
  import opened ParallelWrite

  /** In the run, task `i` was compressed with this outcome. */
  ghost predicate Compressed(schedule: seq<Action>, ss: seq<State>, i: nat, ok: bool) {
    exists j :: 0 <= j < |schedule| && j < |ss| && EndsWith(schedule[j], ss[j], Outcome(i, ok))
  }

  /** The step ends a compression with this outcome. */
  predicate EndsWith(a: Action, s: State, o: Outcome) {
    a.Compress? && a.ok == o.ok && a.w < |s.workers| && s.workers[a.w] == Compressing(o.index)
  }

  ghost predicate Done(H: set<Outcome>, i: nat) {
    Outcome(i, true) in H || Outcome(i, false) in H
  }

  /** The outcomes of the first `n` steps. */
  ghost function Outcomes(schedule: seq<Action>, ss: seq<State>, n: nat): set<Outcome>
    requires n <= |schedule| < |ss|
  {
    if n == 0 then {} else Outcomes(schedule, ss, n - 1) + New(schedule[n - 1], ss[n - 1])
  }

  ghost function New(a: Action, s: State): set<Outcome> {
    if a.Compress? && a.w < |s.workers| && s.workers[a.w].Compressing?
    then {Outcome(s.workers[a.w].index, a.ok)} else {}
  }

  lemma {:induction false} OutcomesAre(schedule: seq<Action>, ss: seq<State>, n: nat, o: Outcome)
    requires n <= |schedule| < |ss|
    ensures o in Outcomes(schedule, ss, n) <==> exists j :: 0 <= j < n && EndsWith(schedule[j], ss[j], o)
  {
    if n > 0 {
      OutcomesAre(schedule, ss, n - 1, o);
      assert o in New(schedule[n - 1], ss[n - 1]) <==> EndsWith(schedule[n - 1], ss[n - 1], o);
    }
  }

  /** Everything on its way behind the compression carries its true outcome; the reorder map and the
      handled tasks are successes. */
  ghost predicate Truthful(s: State, H: set<Outcome>) {
    && (forall w :: 0 <= w < |s.workers| && s.workers[w].Sending? ==> Outcome(s.workers[w].index, s.workers[w].ok) in H)
    && (forall r :: r in s.results ==> r in H)
    && (forall i :: i in s.pending ==> Outcome(i, true) in H)
    && (s.collector.Handling? ==> Outcome(s.collector.index, true) in H)
    && (forall i :: i in s.handled ==> Outcome(i, true) in H)
  }

  /** Before a cancellation a failure is still on its way to the collector. */
  ghost predicate FailuresComing(s: State, H: set<Outcome>) {
    !s.cancelled ==>
      forall i: nat :: Outcome(i, false) in H ==> Outcome(i, false) in s.results || Sending(i, false) in s.workers
  }

  /** No task is compressed twice. */
  ghost predicate Once(s: State, H: set<Outcome>) {
    && (forall i: nat :: !(Outcome(i, true) in H && Outcome(i, false) in H))
    && (forall i: nat :: Done(H, i) ==> i < s.produced && Times(s.tasks, i) == 0)
    && (forall w :: 0 <= w < |s.workers| && (s.workers[w].Took? || s.workers[w].Compressing?) ==>
          !Done(H, s.workers[w].index))
  }

  lemma StepTruthful(c: Config, s: State, a: Action, H: set<Outcome>)
    requires Enabled(c, s, a) && Truthful(s, H)
    ensures Truthful(Apply(c, s, a), H + New(a, s))
  {
    if a.Receive? {
      ReceiveTruthful(c, s, H);
    } else if a.Handle? {
      HandleTruthful(c, s, a.ok, H);
    } else if a.Send? {
      SendTruthful(c, s, a.w, H);
    } else if OfWorker(a) {
      WorkerTruthful(c, s, a, H);
    }
  }

  lemma SendTruthful(c: Config, s: State, w: nat, H: set<Outcome>)
    requires Enabled(c, s, Send(w)) && Truthful(s, H)
    ensures Truthful(Apply(c, s, Send(w)), H)
  {
    assert Outcome(s.workers[w].index, s.workers[w].ok) in H;
  }

  lemma WorkerTruthful(c: Config, s: State, a: Action, H: set<Outcome>)
    requires Enabled(c, s, a) && Truthful(s, H) && OfWorker(a) && !a.Send?
    ensures Truthful(Apply(c, s, a), H + New(a, s))
  {
    var t := Apply(c, s, a);
    assert t.results == s.results && t.pending == s.pending && t.collector == s.collector && t.handled == s.handled;
  }

  lemma ReceiveTruthful(c: Config, s: State, H: set<Outcome>)
    requires Enabled(c, s, Receive) && Truthful(s, H)
    ensures Truthful(Received(c, s), H)
  {
    assert s.results[0] in H;
    assert s.results[0].ok ==> s.results[0] == Outcome(s.results[0].index, true);
  }

  lemma HandleTruthful(c: Config, s: State, ok: bool, H: set<Outcome>)
    requires Enabled(c, s, Handle(ok)) && Truthful(s, H)
    ensures Truthful(Handled(c, s, ok), H)
  {
  }

  lemma StepComing(c: Config, s: State, a: Action, H: set<Outcome>)
    requires Enabled(c, s, a) && FailuresComing(s, H)
    ensures FailuresComing(Apply(c, s, a), H + New(a, s))
  {
    var t := Apply(c, s, a);
    if !t.cancelled {
      forall i: nat | Outcome(i, false) in H + New(a, s)
        ensures Outcome(i, false) in t.results || Sending(i, false) in t.workers
      {
        if Outcome(i, false) in H {
          FailureStays(c, s, a, i);
        } else {
          assert t.workers[a.w] == Sending(i, false);
        }
      }
    }
  }

  /** A failure moves from its worker to the channel, and leaves that by cancelling the run. */
  lemma FailureStays(c: Config, s: State, a: Action, i: nat)
    requires Enabled(c, s, a) && !Apply(c, s, a).cancelled
    requires Outcome(i, false) in s.results || Sending(i, false) in s.workers
    ensures var t := Apply(c, s, a); Outcome(i, false) in t.results || Sending(i, false) in t.workers
  {
    var t := Apply(c, s, a);
    if a.Receive? {
      ReceiveKeeps(c, s, i);
    } else if Outcome(i, false) in s.results {
      assert s.results <= t.results;
    } else {
      var w :| 0 <= w < |s.workers| && s.workers[w] == Sending(i, false);
      if OfWorker(a) && a.w == w {
        assert a.Send? && t.results[|s.results|] == Outcome(i, false);
      } else {
        assert t.workers[w] == Sending(i, false);
      }
    }
  }

  lemma ReceiveKeeps(c: Config, s: State, i: nat)
    requires Enabled(c, s, Receive) && !Received(c, s).cancelled
    ensures Received(c, s).workers == s.workers
    ensures Outcome(i, false) in s.results ==> Outcome(i, false) in Received(c, s).results
  {
    if Outcome(i, false) in s.results {
      var j :| 0 <= j < |s.results| && s.results[j] == Outcome(i, false);
      assert s.results[0].ok;
      assert s.results[1..][j - 1] == Outcome(i, false);
    }
  }

  lemma {:induction false} HeldBy(ws: seq<Worker>, w: nat, i: nat)
    requires w < |ws|
    ensures HeldByAll(ws, i) >= Held(ws[w], i)
  {
    if w > 0 {
      HeldBy(ws[1..], w - 1, i);
    }
  }

  lemma {:induction false} HeldByTwo(ws: seq<Worker>, v: nat, w: nat, i: nat)
    requires v < w < |ws|
    ensures HeldByAll(ws, i) >= Held(ws[v], i) + Held(ws[w], i)
  {
    if v == 0 {
      HeldBy(ws[1..], w - 1, i);
    } else {
      HeldByTwo(ws[1..], v - 1, w - 1, i);
    }
  }

  /** A task that is being compressed is nowhere else. */
  lemma Alone(s: State, w: nat)
    requires Conserved(s) && w < |s.workers| && s.workers[w].Compressing?
    ensures var i := s.workers[w].index;
            && i < s.produced && Times(s.tasks, i) == 0
            && forall v :: 0 <= v < |s.workers| && v != w ==> Held(s.workers[v], i) == 0
  {
    var i := s.workers[w].index;
    HeldBy(s.workers, w, i);
    assert Copies(s, i) == if i < s.produced then 1 else 0;
    forall v | 0 <= v < |s.workers| && v != w
      ensures Held(s.workers[v], i) == 0
    {
      HeldByTwo(s.workers, if v < w then v else w, if v < w then w else v, i);
    }
  }

  lemma StepOnce(c: Config, s: State, a: Action, H: set<Outcome>)
    requires Enabled(c, s, a) && Conserved(s) && Once(s, H)
    ensures Once(Apply(c, s, a), H + New(a, s))
  {
    assert !a.Compress? ==> H + New(a, s) == H;
    if a.Produce? {
      ProduceOnce(c, s, H);
    } else if a.Take? {
      TakeOnce(c, s, a.w, H);
    } else if a.Compress? {
      Alone(s, a.w);
      CompressOnce(c, s, a.w, a.ok, H);
    } else {
      OtherOnce(c, s, a, H);
    }
  }

  lemma OtherOnce(c: Config, s: State, a: Action, H: set<Outcome>)
    requires Enabled(c, s, a) && Once(s, H) && !a.Produce? && !a.Take? && !a.Compress?
    ensures Once(Apply(c, s, a), H + New(a, s))
  {
    var t := Apply(c, s, a);
    assert H + New(a, s) == H;
    if OfWorker(a) {
      assert t.tasks == s.tasks && t.produced == s.produced;
      forall w | 0 <= w < |t.workers| && (t.workers[w].Took? || t.workers[w].Compressing?)
        ensures !Done(H, t.workers[w].index)
      {
        assert (s.workers[w].Took? || s.workers[w].Compressing?) && t.workers[w].index == s.workers[w].index;
      }
    } else {
      SameTasks(c, s, a);
    }
  }

  lemma SameTasks(c: Config, s: State, a: Action)
    requires Enabled(c, s, a) && !OfWorker(a) && !a.Produce?
    ensures var t := Apply(c, s, a); t.workers == s.workers && t.tasks == s.tasks && t.produced == s.produced
  {
  }

  lemma ProduceOnce(c: Config, s: State, H: set<Outcome>)
    requires Enabled(c, s, Produce) && Once(s, H)
    ensures Once(Apply(c, s, Produce), H)
  {
    forall i: nat | Done(H, i)
      ensures Times(s.tasks + [s.produced], i) == 0
    {
      TimesAppend(s.tasks, s.produced, i);
    }
  }

  lemma TakeOnce(c: Config, s: State, w: nat, H: set<Outcome>)
    requires Enabled(c, s, Take(w)) && Once(s, H)
    ensures Once(Apply(c, s, Take(w)), H)
  {
    assert Times(s.tasks, s.tasks[0]) > 0;
  }

  lemma CompressOnce(c: Config, s: State, w: nat, ok: bool, H: set<Outcome>)
    requires Enabled(c, s, Compress(w, ok)) && Once(s, H)
    requires var i := s.workers[w].index;
             && i < s.produced && Times(s.tasks, i) == 0
             && forall v :: 0 <= v < |s.workers| && v != w ==> Held(s.workers[v], i) == 0
    ensures Once(Apply(c, s, Compress(w, ok)), H + {Outcome(s.workers[w].index, ok)})
  {
    var i := s.workers[w].index;
    assert !Done(H, i);
    forall v | 0 <= v < |s.workers| && v != w && (s.workers[v].Took? || s.workers[v].Compressing?)
      ensures s.workers[v].index != i
    {
      assert Held(s.workers[v], i) == 0;
    }
  }

  // ---------------------------------------------------------------- over every run

  lemma {:induction false} RunOutcomes(c: Config, schedule: seq<Action>, ss: seq<State>, n: nat)
    requires IsRun(c, schedule, ss) && n <= |schedule|
    ensures Right(ss[n], Outcomes(schedule, ss, n))
  {
    if n == 0 {
      StartsRight(c);
    } else {
      RunOutcomes(c, schedule, ss, n - 1);
      RunKeepsInv(c, schedule, ss, n - 1);
      RunStep(c, schedule, ss, n - 1);
      StepRight(c, ss[n - 1], schedule[n - 1], ss[n], Outcomes(schedule, ss, n - 1));
    }
  }

  /** `H` are the outcomes of the compressions so far. */
  ghost predicate Right(s: State, H: set<Outcome>) {
    Truthful(s, H) && FailuresComing(s, H) && Once(s, H)
  }

  lemma StartsRight(c: Config)
    ensures Right(Init(c), {})
  {
  }

  lemma RunStep(c: Config, schedule: seq<Action>, ss: seq<State>, n: nat)
    requires IsRun(c, schedule, ss) && n < |schedule|
    ensures Enabled(c, ss[n], schedule[n]) && ss[n + 1] == Apply(c, ss[n], schedule[n])
  {
  }

  lemma StepRight(c: Config, s: State, a: Action, t: State, H: set<Outcome>)
    requires Enabled(c, s, a) && t == Apply(c, s, a) && Conserved(s) && Right(s, H)
    ensures Right(t, H + New(a, s))
  {
    StepTruthful(c, s, a, H);
    StepComing(c, s, a, H);
    StepOnce(c, s, a, H);
  }

  lemma CompressedIff(schedule: seq<Action>, ss: seq<State>, i: nat, ok: bool)
    requires |ss| == |schedule| + 1
    ensures Outcome(i, ok) in Outcomes(schedule, ss, |schedule|) <==> Compressed(schedule, ss, i, ok)
  {
    OutcomesAre(schedule, ss, |schedule|, Outcome(i, ok));
  }

  /** The collector has handled the task, is handling it, or keeps it in the reorder map. */
  ghost predicate Accepted(s: State, i: nat) {
    i in s.handled || i in s.pending || s.collector == Handling(i)
  }

  /** Whatever the interleaving: what was passed to `handleResult`, is being handled or waits in the
      reorder map was compressed without an error, and never with one. */
  lemma HandledSucceeded(c: Config, schedule: seq<Action>, ss: seq<State>, i: nat)
    requires IsRun(c, schedule, ss)
    requires Accepted(ss[|schedule|], i)
    ensures Compressed(schedule, ss, i, true) && !Compressed(schedule, ss, i, false)
  {
    RunOutcomes(c, schedule, ss, |schedule|);
    CompressedIff(schedule, ss, i, true);
    CompressedIff(schedule, ss, i, false);
  }

  /** A task has at most one outcome. */
  lemma OneOutcome(c: Config, schedule: seq<Action>, ss: seq<State>, i: nat)
    requires IsRun(c, schedule, ss)
    ensures !(Compressed(schedule, ss, i, true) && Compressed(schedule, ss, i, false))
  {
    RunOutcomes(c, schedule, ss, |schedule|);
    CompressedIff(schedule, ss, i, true);
    CompressedIff(schedule, ss, i, false);
  }

  /** A run that returns without a cancellation has had no failure: no compression has ended with an
      error, and every file was compressed without one and handled. */
  lemma CleanRunSucceeds(c: Config, schedule: seq<Action>, ss: seq<State>)
    requires IsRun(c, schedule, ss) && Returned(ss[|schedule|]) && !ss[|schedule|].cancelled
    ensures forall i: nat :: !Compressed(schedule, ss, i, false)
    ensures c.workers > 0 || c.files == 0 ==>
              forall i: nat :: i < c.files ==> i in ss[|schedule|].handled && Compressed(schedule, ss, i, true)
  {
    var s := ss[|schedule|];
    RunOutcomes(c, schedule, ss, |schedule|);
    RunKeepsInv(c, schedule, ss, |schedule|);
    forall i: nat
      ensures !Compressed(schedule, ss, i, false)
    {
      CompressedIff(schedule, ss, i, false);
      assert Sending(i, false) !in s.workers;
    }
    if c.workers > 0 || c.files == 0 {
      assert ss[|ss| - 1] == s;
      CleanRunWritesAll(c, s);
      forall i: nat | i < c.files
        ensures i in s.handled && Compressed(schedule, ss, i, true)
      {
        TimesPositive(s.handled, i);
        HandledSucceeded(c, schedule, ss, i);
      }
    }
  }

  // ---------------------------------------------------------------- what cancels a run

  /** The caller cancels, or the collector receives an error, or `handleResult` returns one. */
  predicate Cancels(a: Action, s: State) {
    a.Cancel? || a == Handle(false) || (a.Receive? && !s.cancelled && s.results != [] && !s.results[0].ok)
  }

  lemma StepCancels(c: Config, s: State, a: Action)
    requires Enabled(c, s, a)
    ensures Apply(c, s, a).cancelled <==> s.cancelled || Cancels(a, s)
  {
  }

  ghost predicate CancelledBy(schedule: seq<Action>, ss: seq<State>, n: nat)
    requires n <= |schedule| < |ss|
  {
    exists j :: 0 <= j < n && Cancels(schedule[j], ss[j])
  }

  lemma CancelledMore(schedule: seq<Action>, ss: seq<State>, n: nat)
    requires n < |schedule| < |ss|
    ensures CancelledBy(schedule, ss, n + 1) <==> CancelledBy(schedule, ss, n) || Cancels(schedule[n], ss[n])
  {
  }

  /** A run is cancelled exactly if one of these has happened. */
  lemma {:induction false} CancelledIff(c: Config, schedule: seq<Action>, ss: seq<State>, n: nat)
    requires IsRun(c, schedule, ss) && n <= |schedule|
    ensures ss[n].cancelled <==> CancelledBy(schedule, ss, n)
  {
    if n > 0 {
      CancelledIff(c, schedule, ss, n - 1);
      RunCancels(c, schedule, ss, n - 1);
      CancelledMore(schedule, ss, n - 1);
    }
  }

  lemma RunCancels(c: Config, schedule: seq<Action>, ss: seq<State>, n: nat)
    requires IsRun(c, schedule, ss) && n < |schedule|
    ensures ss[n + 1].cancelled <==> ss[n].cancelled || Cancels(schedule[n], ss[n])
  {
    RunStep(c, schedule, ss, n);
    StepCancels(c, ss[n], schedule[n]);
  }

  /** After a cancellation no result is taken from the channel to be handled: only what the collector
      already had is. */
  lemma {:induction false} NothingNewAfterCancel(c: Config, schedule: seq<Action>, ss: seq<State>, j: nat, n: nat,
                                                 i: nat)
    requires IsRun(c, schedule, ss) && j <= n <= |schedule| && ss[j].cancelled
    requires Accepted(ss[n], i)
    ensures Accepted(ss[j], i)
  {
    if j < n {
      StaysCancelled(c, schedule, ss, j, n - 1);
      RunHad(c, schedule, ss, n - 1, i);
      NothingNewAfterCancel(c, schedule, ss, j, n - 1, i);
    }
  }

  lemma {:induction false} StaysCancelled(c: Config, schedule: seq<Action>, ss: seq<State>, j: nat, n: nat)
    requires IsRun(c, schedule, ss) && j <= n <= |schedule| && ss[j].cancelled
    ensures ss[n].cancelled
  {
    if j < n {
      StaysCancelled(c, schedule, ss, j, n - 1);
      RunCancels(c, schedule, ss, n - 1);
    }
  }

  lemma RunHad(c: Config, schedule: seq<Action>, ss: seq<State>, n: nat, i: nat)
    requires IsRun(c, schedule, ss) && n < |schedule| && ss[n].cancelled && Accepted(ss[n + 1], i)
    ensures Accepted(ss[n], i)
  {
    RunStep(c, schedule, ss, n);
    HadBefore(c, ss[n], schedule[n], i);
  }

  lemma HadBefore(c: Config, s: State, a: Action, i: nat)
    requires Enabled(c, s, a) && s.cancelled
    requires Accepted(Apply(c, s, a), i)
    ensures Accepted(s, i)
  {
    if a.Handle? {
      assert Handled(c, s, a.ok).handled == s.handled + [s.collector.index];
    }
  }

  /** No compression is started after a cancellation: whoever still compresses did so before. */
  lemma {:induction false} NothingStartsAfterCancel(c: Config, schedule: seq<Action>, ss: seq<State>, j: nat, n: nat,
                                                    w: nat)
    requires IsRun(c, schedule, ss) && j <= n <= |schedule| && ss[j].cancelled
    requires w < |ss[n].workers| && ss[n].workers[w].Compressing?
    ensures w < |ss[j].workers| && ss[j].workers[w] == ss[n].workers[w]
  {
    if j < n {
      StaysCancelled(c, schedule, ss, j, n - 1);
      RunStep(c, schedule, ss, n - 1);
      StartedBefore(c, ss[n - 1], schedule[n - 1], w);
      NothingStartsAfterCancel(c, schedule, ss, j, n - 1, w);
    }
  }

  lemma StartedBefore(c: Config, s: State, a: Action, w: nat)
    requires Enabled(c, s, a) && s.cancelled
    requires w < |Apply(c, s, a).workers| && Apply(c, s, a).workers[w].Compressing?
    ensures w < |s.workers| && s.workers[w] == Apply(c, s, a).workers[w]
  {
    SameWorkers(c, s, a);
  }

  lemma SameWorkers(c: Config, s: State, a: Action)
    requires Enabled(c, s, a)
    ensures |Apply(c, s, a).workers| == |s.workers|
    ensures a.Handle? || a.Receive? || a.Cancel? || a.CloseResults? || a.Produce? || a.StopProducing? ==>
              Apply(c, s, a).workers == s.workers
  {
  }

  /** The next step of a worker that does not need anybody else. */
  predicate MovesOn(c: Config, s: State, w: nat) {
    || Enabled(c, s, Take(w)) || Enabled(c, s, Check(w)) || Enabled(c, s, Compress(w, true))
    || Enabled(c, s, Discard(w))
    || Enabled(c, s, Exit(w))
  }

  /** After a cancellation nobody waits for the collector: the producer can stop, and then every worker
      that has not exited can go on. */
  lemma NobodyWaits(c: Config, s: State, w: nat)
    requires s.cancelled && w < |s.workers|
    ensures s.producing ==> Enabled(c, s, StopProducing)
    ensures !s.producing ==> s.workers[w].Exited? || MovesOn(c, s, w)
  {
    assert s.workers[w].Sending? ==> Enabled(c, s, Discard(w));
    assert s.workers[w].Compressing? ==> Enabled(c, s, Compress(w, true));
  }

  /** A worker stops for two reasons only, and then does: with a task in hand it finds the run cancelled,
      or no task is left and none will come. */
  lemma ExitsIff(c: Config, s: State, a: Action, w: nat)
    requires Enabled(c, s, a) && w < |s.workers| && !s.workers[w].Exited?
    ensures |Apply(c, s, a).workers| == |s.workers|
    ensures Apply(c, s, a).workers[w].Exited? <==>
              || (a == Check(w) && s.workers[w].Took? && s.cancelled)
              || (a == Exit(w) && s.workers[w].Idle? && s.tasks == [] && !s.producing)
  {
    SameWorkers(c, s, a);
  }

  // ---------------------------------------------------------------- the order of the channels

  /** The task channel always holds the last of the files sent so far, in the order of the list: so files
      are taken in that order. */
  lemma {:induction false} TasksInOrder(c: Config, schedule: seq<Action>, ss: seq<State>, n: nat)
    requires IsRun(c, schedule, ss) && n <= |schedule|
    ensures LastOnes(ss[n].tasks, ss[n].produced)
  {
    if n > 0 {
      TasksInOrder(c, schedule, ss, n - 1);
      RunStep(c, schedule, ss, n - 1);
      TasksStep(c, ss[n - 1], schedule[n - 1]);
    }
  }

  predicate LastOnes(tasks: seq<nat>, produced: nat) {
    |tasks| <= produced && forall k :: 0 <= k < |tasks| ==> tasks[k] == produced - |tasks| + k
  }

  lemma TasksStep(c: Config, s: State, a: Action)
    requires Enabled(c, s, a) && LastOnes(s.tasks, s.produced)
    ensures LastOnes(Apply(c, s, a).tasks, Apply(c, s, a).produced)
  {
    if a.Receive? {
      SameTasks(c, s, a);
    }
  }

  /** All results sent in the first `n` steps of a run, in order. */
  function Sent(schedule: seq<Action>, ss: seq<State>, n: nat): seq<Outcome>
    requires n <= |schedule| && n < |ss|
  {
    if n == 0 then [] else Sent(schedule, ss, n - 1) + SentBy(schedule[n - 1], ss[n - 1])
  }

  function SentBy(a: Action, s: State): seq<Outcome> {
    if a.Send? && HasResult(s, a.w) then [Outcome(s.workers[a.w].index, s.workers[a.w].ok)] else []
  }

  predicate HasResult(s: State, w: nat) {
    w < |s.workers| && s.workers[w].Sending?
  }

  function ReceivedIn(schedule: seq<Action>, n: nat): nat
    requires n <= |schedule|
  {
    if n == 0 then 0 else ReceivedIn(schedule, n - 1) + if schedule[n - 1].Receive? then 1 else 0
  }

  /** The collector receives the results in the order in which they were sent, each once. */
  lemma {:induction false} ResultsInOrder(c: Config, schedule: seq<Action>, ss: seq<State>, n: nat)
    requires IsRun(c, schedule, ss) && n <= |schedule|
    ensures ReceivedIn(schedule, n) <= |Sent(schedule, ss, n)|
    ensures ss[n].results == Sent(schedule, ss, n)[ReceivedIn(schedule, n)..]
  {
    if n > 0 {
      ResultsInOrder(c, schedule, ss, n - 1);
      RunStep(c, schedule, ss, n - 1);
      ResultsStep(c, ss[n - 1], schedule[n - 1], Sent(schedule, ss, n - 1), ReceivedIn(schedule, n - 1));
    }
  }

  lemma ResultsStep(c: Config, s: State, a: Action, sent: seq<Outcome>, k: nat)
    requires Enabled(c, s, a) && k <= |sent| && s.results == sent[k..]
    ensures var (more, next) := (sent + SentBy(a, s), if a.Receive? then k + 1 else k);
            next <= |more| && Apply(c, s, a).results == more[next..]
  {
    if a.Send? {
      assert Apply(c, s, a).results == s.results + SentBy(a, s);
      assert sent[k..] + SentBy(a, s) == (sent + SentBy(a, s))[k..];
    } else if a.Receive? {
      assert Apply(c, s, a).results == s.results[1..];
      assert sent[k..][1..] == sent[k + 1..] && sent + [] == sent;
    } else {
      SameResults(c, s, a);
      assert sent + [] == sent;
    }
  }

  lemma SameResults(c: Config, s: State, a: Action)
    requires Enabled(c, s, a) && !a.Send? && !a.Receive?
    ensures Apply(c, s, a).results == s.results && SentBy(a, s) == []
  {
  }
}
