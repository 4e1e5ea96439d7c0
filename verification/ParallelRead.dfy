/**
 * The token protocol of `parallelReader.Read`: one loop, one goroutine per tried disk and a buffered
 * channel of triggers, as a state machine over its atomic steps. `works[i]` says whether disk i is present
 * and its ReadAt succeeds, `d` is dataBlocks; the channel's capacity is the number of disks.
 */
module ParallelRead {
  import opened Bytes

  // ---- the outcome, stated without the protocol ----

  function CountTrue(w: seq<bool>): (n: nat)
    ensures n <= |w|
  {
    if w == [] then 0 else (if w[0] then 1 else 0) + CountTrue(w[1..])
  }

  /** How many disks must be tried, in index order, to find d that work; all of them if there are fewer. */
  function TryCount(w: seq<bool>, d: nat): (m: nat)
    ensures m <= |w|
  {
    if w == [] || d == 0 then 0 else 1 + TryCount(w[1..], if w[0] then d - 1 else d)
  }

  lemma {:induction false} CountTruePrefix(w: seq<bool>, m: nat)
    requires m < |w|
    ensures CountTrue(w[..m + 1]) == CountTrue(w[..m]) + (if w[m] then 1 else 0)
  {
    if m == 0 {
      assert w[..1][1..] == [];
    } else {
      assert w[..m + 1][1..] == w[1..][..m] && w[..m][1..] == w[1..][..m - 1];
      CountTruePrefix(w[1..], m - 1);
    }
  }

  /** TryCount is the least m whose prefix holds d working disks, or |w| if no prefix does. */
  lemma {:induction false} TryCountIsLeast(w: seq<bool>, d: nat, m: nat)
    requires d > 0 && m <= |w|
    ensures m == TryCount(w, d) <==>
            (m > 0 ==> CountTrue(w[..m - 1]) < d) && (m < |w| ==> CountTrue(w[..m]) >= d)
  {
    if w != [] {
      var d' := if w[0] then d - 1 else d;
      if m == 0 {
      } else if d' == 0 {
        if m > 1 { assert w[..m - 1][0] == w[0]; }
        assert w[..m][0] == w[0];
      } else {
        TryCountIsLeast(w[1..], d', m - 1);
        assert w[..m][1..] == w[1..][..m - 1];
        if m > 1 {
          assert w[..m - 1][1..] == w[1..][..m - 2];
        }
      }
    }
  }

  // ---- the state machine ----

  /** A disk's goroutine: not started, in ReadAt, failed or filled and about to send its trigger, finished. */
  datatype Phase = Idle | Reading | Failed | Filled | DoneFail | DoneOk

  /** The loop: sending the initial triggers, receiving, deciding on a trigger, in wg.Wait, returned. */
  datatype Main = Priming(sent: nat) | Receiving | Checking(token: bool) | Waiting | Returned(ok: bool)

  datatype State = State(chan: seq<bool>, ph: seq<Phase>, next: nat, main: Main)

  datatype Step = Prime | Receive | Decide | Join | FinishRead(i: nat) | Send(i: nat)

  /** The triggers in the channel that ask for another disk, or that do not. */
  function Tokens(chan: seq<bool>, b: bool): nat { if b then CountTrue(chan) else |chan| - CountTrue(chan) }

  function One(b: bool): nat { if b then 1 else 0 }

  function Buffered(ph: seq<Phase>): nat { Count(ph, Filled) + Count(ph, DoneOk) }

  predicate Sending(p: Phase) { p == Failed || p == Filled }

  predicate Running(p: Phase) { p == Reading || Sending(p) }

  function Init(works: seq<bool>): State {
    State([], seq(|works|, _ => Idle), 0, Priming(0))
  }

  /** A send needs room in the channel, a receive needs a trigger, wg.Wait needs every goroutine finished. */
  predicate Enabled(works: seq<bool>, d: nat, s: State, step: Step) {
    match step
    case Prime => s.main.Priming? && (s.main.sent < d ==> |s.chan| < |works|)
    case Receive => s.main.Receiving? && s.chan != []
    case Decide => s.main.Checking?
    case Join => s.main.Waiting? && forall i :: 0 <= i < |s.ph| ==> !Running(s.ph[i])
    case FinishRead(i) => i < |s.ph| && i < |works| && s.ph[i] == Reading
    case Send(i) => i < |s.ph| && Sending(s.ph[i]) && |s.chan| < |works|
  }

  function Apply(works: seq<bool>, d: nat, s: State, step: Step): State
    requires Enabled(works, d, s, step)
  {
    match step
    case Prime =>
      if s.main.sent < d then s.(chan := s.chan + [true], main := Priming(s.main.sent + 1)) else s.(main := Receiving)
    case Receive => s.(chan := s.chan[1..], main := Checking(s.chan[0]))
    case Decide =>
      if Buffered(s.ph) >= d then s.(main := Waiting)
      else if s.next >= |s.ph| then s.(main := Waiting)
      else if !s.main.token then s.(main := Receiving)
      else s.(ph := s.ph[s.next := Reading], next := s.next + 1, main := Receiving)
    case Join => s.(main := Returned(Buffered(s.ph) >= d))
    case FinishRead(i) => s.(ph := s.ph[i := if works[i] then Filled else Failed])
    case Send(i) =>
      s.(chan := s.chan + [s.ph[i] == Failed], ph := s.ph[i := if s.ph[i] == Failed then DoneFail else DoneOk])
  }

  ghost predicate Next(works: seq<bool>, d: nat, s: State, s': State) {
    exists step :: Enabled(works, d, s, step) && s' == Apply(works, d, s, step)
  }

  ghost predicate Stuck(works: seq<bool>, d: nat, s: State) {
    forall step :: !Enabled(works, d, s, step)
  }

  ghost predicate IsRun(works: seq<bool>, d: nat, run: seq<State>) {
    && run != [] && run[0] == Init(works)
    && forall k :: 0 <= k < |run| - 1 ==> Next(works, d, run[k], run[k + 1])
  }

  // ---- counting ----

  lemma {:induction false} CountUpdate(ph: seq<Phase>, i: nat, q: Phase, p: Phase)
    requires i < |ph|
    ensures Count(ph[i := q], p) == Count(ph, p) - (if ph[i] == p then 1 else 0) + (if q == p then 1 else 0)
  {
    if i == 0 {
      assert ph[i := q][1..] == ph[1..];
    } else {
      assert ph[i := q][1..] == ph[1..][i - 1 := q];
      CountUpdate(ph[1..], i - 1, q, p);
    }
  }

  lemma CountsUpdate(ph: seq<Phase>, i: nat, q: Phase)
    requires i < |ph|
    ensures Count(ph[i := q], Reading) == Count(ph, Reading) - One(ph[i] == Reading) + One(q == Reading)
    ensures Count(ph[i := q], Failed) == Count(ph, Failed) - One(ph[i] == Failed) + One(q == Failed)
    ensures Count(ph[i := q], Filled) == Count(ph, Filled) - One(ph[i] == Filled) + One(q == Filled)
    ensures Count(ph[i := q], DoneOk) == Count(ph, DoneOk) - One(ph[i] == DoneOk) + One(q == DoneOk)
  {
    CountUpdate(ph, i, q, Reading);
    CountUpdate(ph, i, q, Failed);
    CountUpdate(ph, i, q, Filled);
    CountUpdate(ph, i, q, DoneOk);
  }

  lemma {:induction false} CountPositive(ph: seq<Phase>, i: nat)
    requires i < |ph|
    ensures Count(ph, ph[i]) > 0
  {
    if i > 0 { CountPositive(ph[1..], i - 1); }
  }

  lemma {:induction false} CountZero(ph: seq<Phase>, p: Phase)
    requires forall i :: 0 <= i < |ph| ==> ph[i] != p
    ensures Count(ph, p) == 0
  {
    if ph != [] { CountZero(ph[1..], p); }
  }

  lemma {:induction false} TokensSnoc(chan: seq<bool>, x: bool, b: bool)
    ensures Tokens(chan + [x], b) == Tokens(chan, b) + (if x == b then 1 else 0)
  {
    if chan == [] {
      assert (chan + [x])[1..] == [];
    } else {
      assert (chan + [x])[1..] == chan[1..] + [x];
      TokensSnoc(chan[1..], x, b);
    }
  }

  // ---- the invariant ----

  /** The disks tried are the first `next`, and every outcome recorded is the disk's own. */
  ghost predicate Consistent(works: seq<bool>, ph: seq<Phase>, next: nat) {
    && |ph| == |works| && next <= |works|
    && (forall i :: 0 <= i < |works| ==> (i < next <==> ph[i] != Idle))
    && (forall i :: 0 <= i < |works| && (ph[i] == Filled || ph[i] == DoneOk) ==> works[i])
    && (forall i :: 0 <= i < |works| && (ph[i] == Failed || ph[i] == DoneFail) ==> !works[i])
  }

  /** Triggers in the channel that ask for another disk or report one done, and the goroutines by phase. */
  datatype Counts = Counts(more: nat, done: nat, reading: nat, failed: nat, filled: nat, sent: nat)

  function CountsOf(s: State): Counts {
    Counts(Tokens(s.chan, true), Tokens(s.chan, false),
           Count(s.ph, Reading), Count(s.ph, Failed), Count(s.ph, Filled), Count(s.ph, DoneOk))
  }

  /** Triggers asking for a disk, reads under way and shards delivered. */
  function Promised(c: Counts): nat { c.more + c.reading + c.failed + c.filled + c.sent }

  /** Token conservation: together with the trigger in hand there are always exactly d promises. */
  ghost predicate Balanced(n: nat, d: nat, main: Main, next: nat, chan: nat, c: Counts) {
    && c.done <= c.sent
    && match main
       case Priming(k) => k <= d && next == 0 && Promised(c) == k && chan == k
       case Receiving => Promised(c) == d && c.sent - c.done < d
       case Checking(t) => Promised(c) + One(t) == d
       case Waiting => Promised(c) <= d && (c.filled + c.sent >= d || next == n)
       case Returned(ok) => Promised(c) <= d && (c.filled + c.sent >= d || next == n) && ok == (c.filled + c.sent >= d)
  }

  ghost predicate Inv(works: seq<bool>, d: nat, s: State) {
    && Consistent(works, s.ph, s.next)
    && (s.next > 0 ==> CountTrue(works[..s.next - 1]) < d)
    && Balanced(|works|, d, s.main, s.next, |s.chan|, CountsOf(s))
    && (s.main.Returned? ==> forall i :: 0 <= i < |works| ==> !Running(s.ph[i]))
  }

  lemma InitInv(works: seq<bool>, d: nat)
    ensures Inv(works, d, Init(works))
  {
    var s := Init(works);
    CountZero(s.ph, Reading);
    CountZero(s.ph, Failed);
    CountZero(s.ph, Filled);
    CountZero(s.ph, DoneOk);
  }

  /** Working disks among those tried are in flight or delivered; once all have finished, they are delivered. */
  lemma {:induction false} WorkingTried(works: seq<bool>, ph: seq<Phase>, next: nat)
    requires Consistent(works, ph, next)
    ensures CountTrue(works[..next]) <= Count(ph, Reading) + Buffered(ph)
    ensures Count(ph, Reading) == 0 ==> CountTrue(works[..next]) == Buffered(ph)
  {
    if next == 0 {
      CountZero(ph, Reading);
      CountZero(ph, Filled);
      CountZero(ph, DoneOk);
    } else {
      assert Consistent(works[1..], ph[1..], next - 1);
      WorkingTried(works[1..], ph[1..], next - 1);
      assert works[..next][1..] == works[1..][..next - 1];
    }
  }

  lemma PrimeInv(works: seq<bool>, d: nat, s: State)
    requires d > 0 && Inv(works, d, s) && Enabled(works, d, s, Prime)
    ensures Inv(works, d, Apply(works, d, s, Prime))
  {
    TokensSnoc(s.chan, true, true);
    TokensSnoc(s.chan, true, false);
  }

  /** A phase change that records the disk's own outcome. */
  lemma ConsistentUpdate(works: seq<bool>, ph: seq<Phase>, next: nat, i: nat, q: Phase)
    requires Consistent(works, ph, next) && i < |ph| && q != Idle
    requires q == Filled || q == DoneOk ==> works[i]
    requires q == Failed || q == DoneFail ==> !works[i]
    ensures i < next ==> Consistent(works, ph[i := q], next)
    ensures i == next ==> Consistent(works, ph[i := q], next + 1)
  {
  }

  lemma DecideInv(works: seq<bool>, d: nat, s: State)
    requires d > 0 && Inv(works, d, s) && Enabled(works, d, s, Decide)
    ensures Inv(works, d, Apply(works, d, s, Decide))
  {
    if Buffered(s.ph) < d && s.next < |s.ph| && s.main.token {
      LaunchInv(works, d, s);
    }
  }

  lemma LaunchInv(works: seq<bool>, d: nat, s: State)
    requires d > 0 && Inv(works, d, s) && s.main == Checking(true) && s.next < |s.ph| && Buffered(s.ph) < d
    ensures Inv(works, d, State(s.chan, s.ph[s.next := Reading], s.next + 1, Receiving))
  {
    WorkingTried(works, s.ph, s.next);
    CountsUpdate(s.ph, s.next, Reading);
    ConsistentUpdate(works, s.ph, s.next, s.next, Reading);
  }

  lemma ReadInv(works: seq<bool>, d: nat, s: State, i: nat)
    requires d > 0 && Inv(works, d, s) && Enabled(works, d, s, FinishRead(i))
    ensures Inv(works, d, Apply(works, d, s, FinishRead(i)))
  {
    var q, c := if works[i] then Filled else Failed, CountsOf(s);
    ConsistentUpdate(works, s.ph, s.next, i, q);
    CountPositive(s.ph, i);
    CountsUpdate(s.ph, i, q);
    assert CountsOf(s.(ph := s.ph[i := q])) ==
           if works[i] then c.(reading := c.reading - 1, filled := c.filled + 1)
           else c.(reading := c.reading - 1, failed := c.failed + 1);
  }

  lemma SendCounts(s: State, i: nat)
    requires i < |s.ph| && Sending(s.ph[i])
    ensures var c, failed := CountsOf(s), s.ph[i] == Failed;
            && c.failed >= One(failed) && c.filled >= One(!failed)
            && CountsOf(s.(chan := s.chan + [failed], ph := s.ph[i := if failed then DoneFail else DoneOk]))
            == if failed then c.(failed := c.failed - 1, more := c.more + 1)
               else c.(filled := c.filled - 1, sent := c.sent + 1, done := c.done + 1)
  {
    var failed := s.ph[i] == Failed;
    CountPositive(s.ph, i);
    CountsUpdate(s.ph, i, if failed then DoneFail else DoneOk);
    TokensSnoc(s.chan, failed, true);
    TokensSnoc(s.chan, failed, false);
  }

  lemma SendInv(works: seq<bool>, d: nat, s: State, i: nat)
    requires d > 0 && Inv(works, d, s) && Enabled(works, d, s, Send(i))
    ensures Inv(works, d, Apply(works, d, s, Send(i)))
  {
    ConsistentUpdate(works, s.ph, s.next, i, if s.ph[i] == Failed then DoneFail else DoneOk);
    SendCounts(s, i);
  }

  lemma StepInv(works: seq<bool>, d: nat, s: State, step: Step)
    requires d > 0 && Inv(works, d, s) && Enabled(works, d, s, step)
    ensures Inv(works, d, Apply(works, d, s, step))
  {
    match step
    case Prime => PrimeInv(works, d, s);
    case Receive =>
    case Decide => DecideInv(works, d, s);
    case Join =>
    case FinishRead(i) => ReadInv(works, d, s, i);
    case Send(i) => SendInv(works, d, s, i);
  }

  // ---- no send blocks, the loop never hangs, every run is short ----

  /** Triggers in the channel never exceed d, so a pending send always finds room. */
  lemma SendsFindRoom(works: seq<bool>, d: nat, s: State)
    requires 0 < d <= |works| && Inv(works, d, s)
    ensures s.main.Priming? && s.main.sent < d ==> |s.chan| < |works|
    ensures forall i :: 0 <= i < |s.ph| && Sending(s.ph[i]) ==> |s.chan| < |works|
  {
    forall i | 0 <= i < |s.ph| && Sending(s.ph[i]) ensures |s.chan| < |works| {
      CountPositive(s.ph, i);
    }
  }

  /** Until Read has returned, some step is possible. */
  lemma Progress(works: seq<bool>, d: nat, s: State)
    requires 0 < d <= |works| && Inv(works, d, s) && !s.main.Returned?
    ensures exists step :: Enabled(works, d, s, step)
  {
    SendsFindRoom(works, d, s);
    if i :| 0 <= i < |s.ph| && Running(s.ph[i]) {
      assert Enabled(works, d, s, if s.ph[i] == Reading then FinishRead(i) else Send(i));
    } else {
      match s.main
      case Priming(k) => assert Enabled(works, d, s, Prime);
      case Receiving =>
        CountZero(s.ph, Reading);
        CountZero(s.ph, Failed);
        CountZero(s.ph, Filled);
        assert s.chan != [];
        assert Enabled(works, d, s, Receive);
      case Checking(t) => assert Enabled(works, d, s, Decide);
      case Waiting => assert Enabled(works, d, s, Join);
    }
  }

  function MainWeight(d: nat, m: Main): int {
    match m
    case Priming(k) => 5 * (d - k) + 2
    case Receiving => 1
    case Checking(_) => 2
    case Waiting => 1
    case Returned(_) => 0
  }

  function Measure(d: nat, s: State): int {
    10 * (|s.ph| - s.next) + 5 * Count(s.ph, Reading) + 4 * (Count(s.ph, Failed) + Count(s.ph, Filled))
    + 3 * |s.chan| + MainWeight(d, s.main)
  }

  lemma LoopStepShrinks(works: seq<bool>, d: nat, s: State, step: Step)
    requires Inv(works, d, s) && Enabled(works, d, s, step) && (step.Prime? || step.Receive? || step.Join?)
    ensures 0 <= Measure(d, Apply(works, d, s, step)) < Measure(d, s)
  {
    assert s.next <= |s.ph| && Apply(works, d, s, step).ph == s.ph;
  }

  lemma DecideShrinks(works: seq<bool>, d: nat, s: State)
    requires Inv(works, d, s) && Enabled(works, d, s, Decide)
    ensures 0 <= Measure(d, Apply(works, d, s, Decide)) < Measure(d, s)
  {
    assert s.next <= |s.ph|;
    if Buffered(s.ph) < d && s.next < |s.ph| && s.main.token {
      CountsUpdate(s.ph, s.next, Reading);
    }
  }

  lemma DiskStepShrinks(works: seq<bool>, d: nat, s: State, i: nat, step: Step)
    requires Inv(works, d, s) && Enabled(works, d, s, step) && (step == FinishRead(i) || step == Send(i))
    ensures 0 <= Measure(d, Apply(works, d, s, step)) < Measure(d, s)
  {
    CountsUpdate(s.ph, i, Apply(works, d, s, step).ph[i]);
  }

  lemma StepShrinks(works: seq<bool>, d: nat, s: State, step: Step)
    requires Inv(works, d, s) && Enabled(works, d, s, step)
    ensures 0 <= Measure(d, Apply(works, d, s, step)) < Measure(d, s)
  {
    match step
    case FinishRead(i) => DiskStepShrinks(works, d, s, i, step);
    case Send(i) => DiskStepShrinks(works, d, s, i, step);
    case Decide => DecideShrinks(works, d, s);
    case _ => LoopStepShrinks(works, d, s, step);
  }

  lemma {:induction false} RunInv(works: seq<bool>, d: nat, run: seq<State>)
    requires d > 0 && IsRun(works, d, run)
    ensures Inv(works, d, run[|run| - 1])
    ensures 0 <= Measure(d, run[|run| - 1]) <= Measure(d, Init(works)) - (|run| - 1)
    decreases |run|
  {
    var n := |run| - 1;
    if n == 0 {
      InitInv(works, d);
    } else {
      var before := run[..n];
      assert IsRun(works, d, before) by {
        forall k | 0 <= k < |before| - 1 ensures Next(works, d, before[k], before[k + 1]) {
          assert before[k] == run[k] && before[k + 1] == run[k + 1];
        }
      }
      RunInv(works, d, before);
      assert Next(works, d, run[n - 1], run[n - 1 + 1]);
      var step :| Enabled(works, d, run[n - 1], step) && run[n] == Apply(works, d, run[n - 1], step);
      StepInv(works, d, run[n - 1], step);
      StepShrinks(works, d, run[n - 1], step);
    }
  }

  // ---- the theorems ----

  /** The phase every disk ends in: the first TryCount disks were tried, the others were left alone. */
  function FinalPhase(works: seq<bool>, d: nat, i: nat): Phase
    requires i < |works|
  {
    if i >= TryCount(works, d) then Idle else if works[i] then DoneOk else DoneFail
  }

  lemma ReturnedState(works: seq<bool>, d: nat, s: State)
    requires d > 0 && Inv(works, d, s) && s.main.Returned?
    ensures s.main.ok == (CountTrue(works) >= d)
    ensures s.next == TryCount(works, d)
    ensures forall i :: 0 <= i < |works| ==> s.ph[i] == FinalPhase(works, d, i)
  {
    CountZero(s.ph, Reading);
    WorkingTried(works, s.ph, s.next);
    TryCountIsLeast(works, d, s.next);
    if s.next == |works| {
      assert works[..s.next] == works;
    } else {
      PrefixCounts(works, s.next);
    }
  }

  lemma {:induction false} PrefixCounts(w: seq<bool>, m: nat)
    requires m <= |w|
    ensures CountTrue(w[..m]) <= CountTrue(w)
    decreases |w| - m
  {
    if m == |w| {
      assert w[..m] == w;
    } else {
      CountTruePrefix(w, m);
      PrefixCounts(w, m + 1);
    }
  }

  /**
   * Every interleaving: at most 10n + 5d + 2 steps; no send ever waits for room; as long as Read has not
   * returned some step is possible; and when it has, it succeeded iff d disks work, exactly the disks up to
   * the d-th working one were tried, and exactly the working ones among them delivered a buffer.
   */
  lemma EveryInterleaving(works: seq<bool>, d: nat, run: seq<State>)
    requires 0 < d <= |works| && IsRun(works, d, run)
    ensures |run| - 1 <= 10 * |works| + 5 * d + 2
    ensures var s := run[|run| - 1];
            && (s.main.Priming? && s.main.sent < d ==> |s.chan| < |works|)
            && (forall i :: 0 <= i < |s.ph| && Sending(s.ph[i]) ==> |s.chan| < |works|)
            && (Stuck(works, d, s) <==> s.main.Returned?)
    ensures var s := run[|run| - 1];
            s.main.Returned? ==>
              && s.main.ok == (CountTrue(works) >= d)
              && |s.ph| == |works| && s.next == TryCount(works, d)
              && forall i :: 0 <= i < |works| ==> s.ph[i] == FinalPhase(works, d, i)
  {
    var s := run[|run| - 1];
    RunInv(works, d, run);
    var s0 := Init(works);
    CountZero(s0.ph, Reading);
    CountZero(s0.ph, Failed);
    CountZero(s0.ph, Filled);
    SendsFindRoom(works, d, s);
    if s.main.Returned? {
      ReturnedState(works, d, s);
    } else {
      Progress(works, d, s);
    }
  }

  /** Outside the geometry: the loop is still sending its first triggers, or waits for one, and no disk was started. */
  ghost predicate Hanging(works: seq<bool>, d: nat, s: State) {
    && s.ph == Init(works).ph
    && if d == 0 then s.chan == [] && (s.main == Priming(0) || s.main == Receiving)
       else s.main.Priming? && s.main.sent == |s.chan| <= |works|
  }

  lemma {:induction false} AlwaysHanging(works: seq<bool>, d: nat, run: seq<State>)
    requires (d == 0 || d > |works|) && IsRun(works, d, run)
    ensures var s := run[|run| - 1];
            Hanging(works, d, s) && |run| - 1 == if d == 0 then (if s.main == Receiving then 1 else 0) else |s.chan|
    decreases |run|
  {
    var n := |run| - 1;
    if n > 0 {
      var before := run[..n];
      assert IsRun(works, d, before) by {
        forall k | 0 <= k < |before| - 1 ensures Next(works, d, before[k], before[k + 1]) {
          assert before[k] == run[k] && before[k + 1] == run[k + 1];
        }
      }
      AlwaysHanging(works, d, before);
      assert before[|before| - 1] == run[n - 1];
      assert Next(works, d, run[n - 1], run[n - 1 + 1]);
      var step :| Enabled(works, d, run[n - 1], step) && run[n] == Apply(works, d, run[n - 1], step);
    }
  }

  /**
   * With more data shards than disks the initial sends fill the channel, and with none no trigger is ever sent: no run
   * returns, every run comes to a halt after at most n + 1 steps, and there is one that does.
   */
  lemma HangsOutsideGeometry(works: seq<bool>, d: nat)
    requires d == 0 || d > |works|
    ensures forall run: seq<State> :: IsRun(works, d, run) ==> !run[|run| - 1].main.Returned? && |run| - 1 <= |works| + 1
    ensures exists run: seq<State> :: IsRun(works, d, run) && Stuck(works, d, run[|run| - 1])
  {
    forall run: seq<State> | IsRun(works, d, run) ensures !run[|run| - 1].main.Returned? && |run| - 1 <= |works| + 1 {
      AlwaysHanging(works, d, run);
    }
    var s0 := Init(works);
    if d == 0 {
      var s1 := Apply(works, d, s0, Prime);
      assert Next(works, d, s0, s1);
      assert IsRun(works, d, [s0, s1]);
      assert Stuck(works, d, [s0, s1][1]);
    } else {
      var run := PrimeRun(works, d, |works|);
      assert Stuck(works, d, run[|run| - 1]);
    }
  }

  lemma {:induction false} PrimeRun(works: seq<bool>, d: nat, k: nat) returns (run: seq<State>)
    requires k <= |works| < d
    ensures IsRun(works, d, run)
    ensures var s := run[|run| - 1]; s.main == Priming(k) && |s.chan| == k && s.ph == Init(works).ph
    decreases k
  {
    if k == 0 {
      run := [Init(works)];
    } else {
      var before := PrimeRun(works, d, k - 1);
      var s := before[|before| - 1];
      var s' := Apply(works, d, s, Prime);
      assert Next(works, d, s, s');
      run := before + [s'];
      forall j | 0 <= j < |run| - 1 ensures Next(works, d, run[j], run[j + 1]) {
        if j < |before| - 1 { assert run[j] == before[j] && run[j + 1] == before[j + 1]; }
      }
    }
  }
}
