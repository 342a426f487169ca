/** `secureWriter`: limits on extracted bytes.  Many writers share one atomic byte counter, to which a
    write adds its length before it knows whether the limit allows it. */
module SecureWriter {
  import opened Wrappers
  import opened Bytes

  /** Limits of zero or less are off.  `quotient` is the floating-point quotient of two integers. */
  datatype Limits = Limits(maxTotal: int, maxFile: int, maxRatio: real, quotient: (int, int) -> real)

  const GRACE_SPACE: int := 10 * 1024 * 1024
  const RATIO_BUFFER: int := 4096

  /** The checks of one file, for `written` bytes before and `n` more. */
  predicate FileLimitOk(l: Limits, written: nat, n: nat) {
    l.maxFile > 0 ==> written + n <= l.maxFile
  }

  predicate RatioOk(l: Limits, written: nat, csize: nat, n: nat) {
    l.maxRatio > 0.0 && written + n > GRACE_SPACE ==> l.quotient(written + n, csize + RATIO_BUFFER) <= l.maxRatio
  }

  // ---------------------------------------------------------------- all writers together

  /** What a writer is in the middle of: a reservation within the total limit, or one beyond it that
      is still to be taken back. */
  datatype Phase = Idle | Granted(n: nat) | Doomed(n: nat)

  datatype Writer = Writer(phase: Phase, written: nat, csize: nat)

  /** `granted` counts the bytes of all reservations within the limit, ever. */
  datatype State = State(counter: int, writers: seq<Writer>, granted: nat)

  /** The atomic steps: add to the counter; take it back; check the file limits and write `k` of the
      bytes, as the destination may write less than it is given. */
  datatype Action = Reserve(i: nat, n: nat) | RollBack(i: nat) | Finish(i: nat, k: nat)

  predicate Enabled(s: State, a: Action) {
    a.i < |s.writers| &&
    match a
    case Reserve(i, n) => s.writers[i].phase.Idle?
    case RollBack(i) => s.writers[i].phase.Doomed?
    case Finish(i, k) => s.writers[i].phase.Granted? && k <= s.writers[i].phase.n
  }

  function Apply(l: Limits, s: State, a: Action): State
    requires Enabled(s, a)
  {
    var w := s.writers[a.i];
    match a
    case Reserve(i, n) =>
      if l.maxTotal <= 0 then s.(writers := s.writers[i := w.(phase := Granted(n))])
      else if s.counter + n > l.maxTotal
      then s.(counter := s.counter + n, writers := s.writers[i := w.(phase := Doomed(n))])
      else State(s.counter + n, s.writers[i := w.(phase := Granted(n))], s.granted + n)
    case RollBack(i) => s.(counter := s.counter - w.phase.n, writers := s.writers[i := w.(phase := Idle)])
    case Finish(i, k) =>
      var ok := FileLimitOk(l, w.written, w.phase.n) && RatioOk(l, w.written, w.csize, w.phase.n);
      s.(writers := s.writers[i := w.(phase := Idle, written := if ok then w.written + k else w.written)])
  }

  function DoomedBytes(w: Writer): nat { if w.phase.Doomed? then w.phase.n else 0 }

  /** Bytes written, or that may still be written without a further look at the counter. */
  function Claimed(w: Writer): nat { w.written + if w.phase.Granted? then w.phase.n else 0 }

  function Written(w: Writer): nat { w.written }

  function Sum(f: Writer -> nat, ws: seq<Writer>): nat {
    if ws == [] then 0 else Sum(f, ws[..|ws| - 1]) + f(ws[|ws| - 1])
  }

  lemma {:induction false} SumUpdate(f: Writer -> nat, ws: seq<Writer>, i: nat, w: Writer)
    requires i < |ws|
    ensures Sum(f, ws[i := w]) == Sum(f, ws) - f(ws[i]) + f(w)
  {
    var n := |ws| - 1;
    if i == n {
      assert ws[i := w][..n] == ws[..n];
    } else {
      assert ws[i := w][..n] == ws[..n][i := w];
      SumUpdate(f, ws[..n], i, w);
    }
  }

  lemma {:induction false} SumMonotone(f: Writer -> nat, g: Writer -> nat, ws: seq<Writer>)
    requires forall w :: f(w) <= g(w)
    ensures Sum(f, ws) <= Sum(g, ws)
  {
    if ws != [] {
      SumMonotone(f, g, ws[..|ws| - 1]);
    }
  }

  /** The counter is what was granted plus what is still to be taken back, so a grant never goes beyond
      the limit, and no one writes more than was granted. */
  ghost predicate Inv(l: Limits, s: State) {
    && (l.maxTotal > 0 ==>
          && s.counter == s.granted + Sum(DoomedBytes, s.writers)
          && s.granted <= l.maxTotal
          && Sum(Claimed, s.writers) <= s.granted)
    && (l.maxFile > 0 ==> forall i :: 0 <= i < |s.writers| ==> s.writers[i].written <= l.maxFile)
  }

  function InitialState(csizes: seq<nat>): State {
    State(0, seq(|csizes|, i requires 0 <= i < |csizes| => Writer(Idle, 0, csizes[i])), 0)
  }

  lemma {:induction false} SumOfZeros(f: Writer -> nat, ws: seq<Writer>)
    requires forall i :: 0 <= i < |ws| ==> f(ws[i]) == 0
    ensures Sum(f, ws) == 0
  {
    if ws != [] {
      SumOfZeros(f, ws[..|ws| - 1]);
    }
  }

  lemma InitialInv(l: Limits, csizes: seq<nat>)
    ensures Inv(l, InitialState(csizes))
  {
    SumOfZeros(DoomedBytes, InitialState(csizes).writers);
    SumOfZeros(Claimed, InitialState(csizes).writers);
  }

  lemma StepKeepsInv(l: Limits, s: State, a: Action)
    requires Inv(l, s) && Enabled(s, a)
    ensures Inv(l, Apply(l, s, a))
  {
    var t := Apply(l, s, a);
    SumUpdate(DoomedBytes, s.writers, a.i, t.writers[a.i]);
    SumUpdate(Claimed, s.writers, a.i, t.writers[a.i]);
  }

  /** The state after some actions, in any interleaving. */
  ghost predicate IsRun(l: Limits, s: State, actions: seq<Action>, t: State)
    decreases |actions|
  {
    if actions == [] then t == s
    else Enabled(s, actions[0]) && IsRun(l, Apply(l, s, actions[0]), actions[1..], t)
  }

  lemma {:induction false} RunKeepsInv(l: Limits, s: State, actions: seq<Action>, t: State)
    requires Inv(l, s) && IsRun(l, s, actions, t)
    ensures Inv(l, t)
    decreases |actions|
  {
    if actions != [] {
      StepKeepsInv(l, s, actions[0]);
      RunKeepsInv(l, Apply(l, s, actions[0]), actions[1..], t);
    }
  }

  /** In every interleaving of any number of writers, the bytes written never exceed the total limit,
      and no file exceeds its own. */
  lemma NeverOverLimit(l: Limits, csizes: seq<nat>, actions: seq<Action>, t: State)
    requires IsRun(l, InitialState(csizes), actions, t)
    ensures l.maxTotal > 0 ==> Sum(Written, t.writers) <= l.maxTotal
    ensures l.maxFile > 0 ==> forall i :: 0 <= i < |t.writers| ==> t.writers[i].written <= l.maxFile
  {
    InitialInv(l, csizes);
    RunKeepsInv(l, InitialState(csizes), actions, t);
    SumMonotone(Written, Claimed, t.writers);
  }

  lemma {:induction false} SumBound(f: Writer -> nat, ws: seq<Writer>, b: nat)
    requires forall i :: 0 <= i < |ws| ==> f(ws[i]) <= b
    ensures Sum(f, ws) <= Times(|ws|, b)
  {
    if ws != [] {
      SumBound(f, ws[..|ws| - 1], b);
    }
  }

  /** How far above the limit the counter can be in between: by one write for each writer.  It is back
      to what was granted whenever no reservation is to be taken back. */
  lemma CounterBound(l: Limits, s: State, b: nat)
    requires Inv(l, s) && l.maxTotal > 0
    requires forall i :: 0 <= i < |s.writers| ==> DoomedBytes(s.writers[i]) <= b
    ensures 0 <= s.counter <= l.maxTotal + Times(|s.writers|, b)
    ensures (forall i :: 0 <= i < |s.writers| ==> !s.writers[i].phase.Doomed?) ==> s.counter == s.granted
  {
    SumBound(DoomedBytes, s.writers, b);
    if forall i :: 0 <= i < |s.writers| ==> !s.writers[i].phase.Doomed? {
      SumOfZeros(DoomedBytes, s.writers);
    }
  }

  /** Exactly when a reservation is refused: reservations still to be taken back count as well. */
  lemma RefusedIff(l: Limits, s: State, i: nat, n: nat)
    requires Inv(l, s) && l.maxTotal > 0 && Enabled(s, Reserve(i, n))
    ensures Apply(l, s, Reserve(i, n)).writers[i].phase.Doomed?
       <==> s.granted + Sum(DoomedBytes, s.writers) + n > l.maxTotal
  {
  }

  /** So a write can be refused that would fit: one writer asks for 20 of 10 bytes, and before it takes
      that back another one asks in vain for 5, while nothing has been written. */
  lemma RefusedThoughItFits(quotient: (int, int) -> real)
    ensures var l, s := Limits(10, 0, 0.0, quotient), InitialState([0, 0]);
            var t := Apply(l, s, Reserve(0, 20));
            && Enabled(s, Reserve(0, 20)) && Enabled(t, Reserve(1, 5))
            && Apply(l, t, Reserve(1, 5)).writers[1].phase == Doomed(5)
            && t.granted == 0
  {
  }

  // ---------------------------------------------------------------- the shared budget that is lost

  /** The last step of a write of some bytes that is refused because of its file, or of which the
      destination takes less. */
  predicate Loses(l: Limits, s: State, a: Action)
    requires Enabled(s, a)
  {
    a.Finish? &&
    var w := s.writers[a.i];
    w.phase.n > 0 && !(FileLimitOk(l, w.written, w.phase.n) && RatioOk(l, w.written, w.csize, w.phase.n)
                       && a.k == w.phase.n)
  }

  /** What such a step has reserved and does not write. */
  function Loss(l: Limits, s: State, a: Action): nat
    requires Enabled(s, a)
  {
    if !a.Finish? then 0
    else
      var w := s.writers[a.i];
      var ok := FileLimitOk(l, w.written, w.phase.n) && RatioOk(l, w.written, w.csize, w.phase.n);
      w.phase.n - if ok then a.k else 0
  }

  /** The last step of a write leaves the counter alone.  Its whole share turns into written bytes if
      and only if both limits of the file hold and the destination takes all of it, or it is empty. */
  lemma ShareLostIff(l: Limits, s: State, i: nat, k: nat)
    requires Enabled(s, Finish(i, k))
    ensures var (t, w) := (Apply(l, s, Finish(i, k)), s.writers[i]);
            && t.counter == s.counter && t.granted == s.granted && t.writers[i].phase.Idle?
            && (Sum(Claimed, t.writers) == Sum(Claimed, s.writers) <==>
                  || (FileLimitOk(l, w.written, w.phase.n) && RatioOk(l, w.written, w.csize, w.phase.n)
                      && k == w.phase.n)
                  || w.phase.n == 0)
  {
    var t := Apply(l, s, Finish(i, k));
    SumUpdate(Claimed, s.writers, i, t.writers[i]);
  }

  /** All that a run loses. */
  function LossOf(l: Limits, s: State, actions: seq<Action>): nat
    requires IsSchedule(l, s, actions)
    decreases |actions|
  {
    if actions == [] then 0 else Loss(l, s, actions[0]) + LossOf(l, Apply(l, s, actions[0]), actions[1..])
  }

  predicate IsSchedule(l: Limits, s: State, actions: seq<Action>)
    decreases |actions|
  {
    actions == [] || (Enabled(s, actions[0]) && IsSchedule(l, Apply(l, s, actions[0]), actions[1..]))
  }

  predicate NeverLoses(l: Limits, s: State, actions: seq<Action>)
    requires IsSchedule(l, s, actions)
    decreases |actions|
  {
    actions == [] ||
    (!Loses(l, s, actions[0]) && NeverLoses(l, Apply(l, s, actions[0]), actions[1..]))
  }

  /** Bytes written, bytes that may still be written, and bytes to be taken back. */
  function Accounted(s: State): nat {
    Sum(Claimed, s.writers) + Sum(DoomedBytes, s.writers)
  }

  lemma StepLoses(l: Limits, s: State, a: Action)
    requires l.maxTotal > 0 && Enabled(s, a)
    ensures Apply(l, s, a).counter - Accounted(Apply(l, s, a)) == s.counter - Accounted(s) + Loss(l, s, a)
    ensures Loss(l, s, a) == 0 <==> !Loses(l, s, a)
  {
    var t := Apply(l, s, a);
    SumUpdate(DoomedBytes, s.writers, a.i, t.writers[a.i]);
    SumUpdate(Claimed, s.writers, a.i, t.writers[a.i]);
  }

  lemma {:induction false} RunLoses(l: Limits, s: State, actions: seq<Action>, t: State)
    requires l.maxTotal > 0 && IsRun(l, s, actions, t)
    ensures IsSchedule(l, s, actions)
    ensures t.counter - Accounted(t) == s.counter - Accounted(s) + LossOf(l, s, actions)
    ensures LossOf(l, s, actions) == 0 <==> NeverLoses(l, s, actions)
    decreases |actions|
  {
    if actions != [] {
      StepLoses(l, s, actions[0]);
      RunLoses(l, Apply(l, s, actions[0]), actions[1..], t);
    }
  }

  /** After any interleaving the counter is what was written, may still be written or is to be taken
      back, and besides that all that was lost; so it is right exactly if no write was refused because
      of its file or cut short by its destination. */
  lemma CounterRightIff(l: Limits, csizes: seq<nat>, actions: seq<Action>, t: State)
    requires l.maxTotal > 0 && IsRun(l, InitialState(csizes), actions, t)
    ensures IsSchedule(l, InitialState(csizes), actions)
    ensures t.counter == Accounted(t) + LossOf(l, InitialState(csizes), actions)
    ensures t.counter == Accounted(t) <==> NeverLoses(l, InitialState(csizes), actions)
  {
    SumOfZeros(DoomedBytes, InitialState(csizes).writers);
    SumOfZeros(Claimed, InitialState(csizes).writers);
    RunLoses(l, InitialState(csizes), actions, t);
  }

  /** Of 10 bytes in all a file asks for 9, which are too many for it; then 2 bytes are refused to
      another file, although nothing has been written and no reservation is open. */
  lemma BudgetLost(quotient: (int, int) -> real)
    ensures var l, s := Limits(10, 3, 0.0, quotient), InitialState([0, 0]);
            var actions, after := [Reserve(0, 9), Finish(0, 0)], State(9, s.writers, 9);
            && IsRun(l, s, actions, after) && Accounted(after) == 0 && FileLimitOk(l, 0, 2)
            && Apply(l, after, Reserve(1, 2)).writers[1].phase == Doomed(2)
  {
    var l, s := Limits(10, 3, 0.0, quotient), InitialState([0, 0]);
    var actions, after := [Reserve(0, 9), Finish(0, 0)], State(9, s.writers, 9);
    var middle := Apply(l, s, actions[0]);
    assert actions[1..] == [Finish(0, 0)] && actions[1..][1..] == [];
    assert Apply(l, middle, Finish(0, 0)) == after;
    assert IsRun(l, after, [], after) && IsRun(l, middle, actions[1..], after);
    SumOfZeros(DoomedBytes, s.writers);
    SumOfZeros(Claimed, s.writers);
  }

  // ---------------------------------------------------------------- the ratio

  /** `round` goes to the nearest number that floating point has; which way a tie goes is left open.
      (Nothing here comes near the largest one.) */
  ghost predicate Nearest(round: real -> real, float: real -> bool) {
    forall x: real ::
      float(round(x)) && forall y: real :: float(y) ==> Distance(x, round(x)) <= Distance(x, y)
  }

  function Distance(x: real, y: real): real {
    if x <= y then y - x else x - y
  }

  /** The quotient of two integers, as it is computed: both are converted first. */
  ghost predicate Divides(quotient: (int, int) -> real, round: real -> real) {
    && (forall b: int :: b > 0 ==> round(AsReal(b)) > 0.0)
    && (forall a: int, b: int :: b > 0 ==> quotient(a, b) == round(Quotient(round, a, b)))
  }

  /** The quotient before it is rounded. */
  function Quotient(round: real -> real, a: int, b: int): real
    requires round(AsReal(b)) > 0.0
  {
    round(AsReal(a)) / round(AsReal(b))
  }

  function AsReal(a: int): real { a as real }

  /** `r` and `s` are neighbours. */
  ghost predicate Next(float: real -> bool, r: real, s: real) {
    float(r) && float(s) && r < s && forall t: real :: r < t < s ==> !float(t)
  }

  /** Rounding does not pass `r` exactly up to the middle between `r` and its neighbour. */
  lemma RoundedIff(round: real -> real, float: real -> bool, x: real, r: real, s: real)
    requires Nearest(round, float) && Next(float, r, s)
    ensures round(x) <= r <==> x < (r + s) / 2.0 || (x == (r + s) / 2.0 && round(x) == r)
  {
    assert float(round(x)) && !(r < round(x) < s);
    assert Distance(x, round(x)) <= Distance(x, r) && Distance(x, round(x)) <= Distance(x, s);
  }

  /** A number that floating point has stays as it is, so sizes below 2^53 are converted exactly. */
  lemma ExactKept(round: real -> real, float: real -> bool, x: real)
    requires Nearest(round, float) && float(x)
    ensures round(x) == x
  {
    assert Distance(x, round(x)) <= Distance(x, x);
  }

  /** Exactly what the ratio limit accepts, beyond the space that is granted in any case: the quotient of
      the converted sizes lies below the middle between the limit and the next number of floating point,
      or there if that tie goes down. */
  lemma RatioOkIff(l: Limits, round: real -> real, float: real -> bool, next: real, written: nat, csize: nat, n: nat)
    requires Nearest(round, float) && Divides(l.quotient, round) && Next(float, l.maxRatio, next)
    requires l.maxRatio > 0.0 && written + n > GRACE_SPACE
    ensures var (x, middle) := (Quotient(round, written + n, csize + RATIO_BUFFER), (l.maxRatio + next) / 2.0);
            RatioOk(l, written, csize, n) <==> x < middle || (x == middle && round(x) == l.maxRatio)
    ensures var (w, d) := (AsReal(written + n), AsReal(csize + RATIO_BUFFER));
            float(w) && float(d) ==> Quotient(round, written + n, csize + RATIO_BUFFER) == w / d
  {
    var (w, d) := (AsReal(written + n), AsReal(csize + RATIO_BUFFER));
    if float(w) && float(d) {
      ExactKept(round, float, w);
      ExactKept(round, float, d);
    }
    RoundedIff(round, float, Quotient(round, written + n, csize + RATIO_BUFFER), l.maxRatio, next);
  }

  /** A file may be filled up to its limit, and not by one byte more. */
  lemma FillsExactly(l: Limits, written: nat, n: nat)
    requires 0 < l.maxFile && written <= l.maxFile
    ensures FileLimitOk(l, written, n) <==> n < l.maxFile - written + 1
    ensures FileLimitOk(l, written, l.maxFile - written) && !FileLimitOk(l, written, l.maxFile - written + 1)
  {
  }

  /** The ratio counts from ten mebibytes on, against four kibibytes more than the file takes; without
      rounding that is a comparison of products. */
  lemma RatioNumbers(l: Limits, written: nat, csize: nat, n: nat)
    requires l.maxRatio > 0.0 && l.quotient(written + n, csize + 4096) == AsReal(written + n) / AsReal(csize + 4096)
    ensures RatioOk(l, written, csize, n) <==>
            written + n <= 10485760 || AsReal(written + n) <= l.maxRatio * AsReal(csize + 4096)
  {
    QuotientBelow(AsReal(written + n), AsReal(csize + 4096), l.maxRatio);
  }

  lemma QuotientBelow(x: real, d: real, r: real)
    requires d > 0.0
    ensures x / d <= r <==> x <= r * d
  {
    assert x / d * d == x;
    if x / d <= r {
      assert (r - x / d) * d >= 0.0;
    } else {
      assert (x / d - r) * d > 0.0;
    }
  }

  // ---------------------------------------------------------------- one writer's code

  class Counter {
    var value: int

    constructor ()
      ensures value == 0
    {
      value := 0;
    }
  }

  datatype Refusal = TotalLimit | FileLimit | RatioLimit

  class SecureWriter {
    const limits: Limits
    const csize: nat
    const totalWritten: Counter
    var written: nat

    constructor (limits: Limits, csize: nat, totalWritten: Counter)
      ensures this.limits == limits && this.csize == csize && this.totalWritten == totalWritten && written == 0
    {
      this.limits, this.csize, this.totalWritten, written := limits, csize, totalWritten, 0;
    }

    /** A state in which this is the only writer. */
    function Now(granted: nat): State
      reads this, totalWritten
    {
      State(totalWritten.value, [Writer(Idle, written, csize)], granted)
    }

    /** `Write` of `n` bytes to a destination that takes `k` of them: without other writers in between
        it is a reservation followed at once by taking it back or by finishing. */
    method Write(n: nat, k: nat, ghost granted: nat) returns (r: nat, err: Option<Refusal>)
      requires k <= n
      modifies this`written, totalWritten
      ensures var s := Apply(limits, old(Now(granted)), Reserve(0, n));
              var t := Apply(limits, s, if s.writers[0].phase.Doomed? then RollBack(0) else Finish(0, k));
              Now(t.granted) == t
      ensures r == written - old(written) && (err.Some? ==> r == 0)
      ensures err.None? <==>
                && (limits.maxTotal > 0 ==> old(totalWritten.value) + n <= limits.maxTotal)
                && FileLimitOk(limits, old(written), n) && RatioOk(limits, old(written), csize, n)
      ensures err.None? ==> r == k
    {
      if limits.maxTotal > 0 {
        totalWritten.value := totalWritten.value + n;
        var newTotal := totalWritten.value;
        if newTotal > limits.maxTotal {
          totalWritten.value := totalWritten.value - n;
          return 0, Some(TotalLimit);
        }
      }
      if limits.maxFile > 0 {
        if written + n > limits.maxFile {
          return 0, Some(FileLimit);
        }
      }
      if limits.maxRatio > 0.0 && written + n > GRACE_SPACE {
        var currentRatio := limits.quotient(written + n, csize + RATIO_BUFFER);
        if currentRatio > limits.maxRatio {
          return 0, Some(RatioLimit);
        }
      }
      written := written + k;
      return k, None;
    }
  }
}
