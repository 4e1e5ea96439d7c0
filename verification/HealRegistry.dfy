/**
 * Heal sequences and the map in which the server registers them, as a state machine: launch and stop requests, the
 * sequences themselves and the periodic clean-up advance in any order, one critical section or signal at a time.
 */
module HealRegistry {
  import opened Bytes

  datatype Summary = NotStarted | Running | Stopped | Finished

  /** How far the launch request of a sequence has come. */
  datatype Launch =
    | Asked
    | Found(found: Option<nat>)
    /** A forced start stops sequence `he`: it will look at the stop channel, and has seen it open and will close it. */
    | Stopping(he: nat)
    | Closing(he: nat)
    /** A forced start waits for sequence `he` to end. */
    | Waiting(he: nat)
    | Ready
    | Accepted
    | AlreadyRunning
    | Overlapping

  datatype Sequence = Sequence(path: string, forced: bool, launch: Launch, summary: Summary, stopSignal: bool, items: nat) {
    predicate HasEnded() { summary == Stopped || summary == Finished }

    /** Launched and not ended. */
    predicate Live() { launch == Accepted && !HasEnded() }
  }

  datatype StopRequest =
    | StopAsked(path: string)
    /** As above. */
    | StopFound(path: string, he: nat)
    | StopClosing(path: string, he: nat)
    | StopWaiting(path: string, he: nat)
    | StopDone

  /** `panicked`: a closed channel was closed again, which ends the process. */
  datatype State = State(seqs: seq<Sequence>, registry: map<string, nat>, stops: seq<StopRequest>, panicked: bool)

  datatype Step =
    /** A launch request: a new sequence, its look-up and decision, a forced stop and the wait for it, its registration. */
    | Create(path: string, forced: bool)
    | LookUp(i: nat)
    | Decide(i: nat)
    | LookByLaunch(i: nat)
    | CloseByLaunch(i: nat)
    | Proceed(i: nat)
    | Register(i: nat)
    /** The sequence: it starts, ends by itself or on the stop signal, and its buffer of results changes. */
    | Begin(i: nat)
    | Finish(i: nat, ok: bool)
    | Halt(i: nat)
    | Buffer(i: nat, items: nat)
    /** A stop request: it finds and stops a sequence, and removes its path once that sequence has ended. */
    | AskStop(path: string)
    | FindStop(j: nat)
    | LookByStop(j: nat)
    | CloseByStop(j: nat)
    | StopDelete(j: nat)
    /** The clean-up of one ended sequence. */
    | Clean(path: string)

  predicate Overlap(a: string, b: string) { a <= b || b <= a }

  predicate Ended(s: State, i: nat) { i < |s.seqs| && s.seqs[i].HasEnded() }

  /** Some registered sequence that has not ended overlaps with the path. */
  predicate Blocked(s: State, path: string) {
    exists p :: p in s.registry && !Ended(s, s.registry[p]) && Overlap(p, path)
  }

  ghost predicate Enabled(s: State, step: Step) {
    !s.panicked &&
    match step
    case Create(_, _) => true
    case LookUp(i) => i < |s.seqs| && s.seqs[i].launch == Asked
    case Decide(i) => i < |s.seqs| && s.seqs[i].launch.Found?
    case LookByLaunch(i) => i < |s.seqs| && s.seqs[i].launch.Stopping?
    case CloseByLaunch(i) => i < |s.seqs| && s.seqs[i].launch.Closing?
    case Proceed(i) => i < |s.seqs| && s.seqs[i].launch.Waiting? && Ended(s, s.seqs[i].launch.he)
    case Register(i) => i < |s.seqs| && s.seqs[i].launch == Ready
    case Begin(i) => i < |s.seqs| && s.seqs[i].launch == Accepted && s.seqs[i].summary == NotStarted
    case Finish(i, _) => i < |s.seqs| && s.seqs[i].summary == Running
    case Halt(i) => i < |s.seqs| && s.seqs[i].summary == Running && s.seqs[i].stopSignal
    case Buffer(i, _) => i < |s.seqs|
    case AskStop(_) => true
    case FindStop(j) => j < |s.stops| && s.stops[j].StopAsked?
    case LookByStop(j) => j < |s.stops| && s.stops[j].StopFound?
    case CloseByStop(j) => j < |s.stops| && s.stops[j].StopClosing?
    case StopDelete(j) => j < |s.stops| && s.stops[j].StopWaiting? && Ended(s, s.stops[j].he)
    case Clean(path) => path in s.registry && Ended(s, s.registry[path])
  }

  /** Entries are launched sequences under their own path, and those that have not ended do not overlap. */
  ghost predicate RegistryInv(s: State) {
    && (forall p :: p in s.registry ==>
          s.registry[p] < |s.seqs| && s.seqs[s.registry[p]].path == p && s.seqs[s.registry[p]].launch == Accepted)
    && (forall p, q :: p in s.registry && q in s.registry && p != q && Overlap(p, q) ==>
          s.seqs[s.registry[p]].HasEnded() || s.seqs[s.registry[q]].HasEnded())
  }

  ghost predicate SequencesInv(s: State) {
    forall i :: 0 <= i < |s.seqs| ==> s.seqs[i].launch == Accepted || s.seqs[i].summary == NotStarted
  }

  ghost predicate Inv(s: State) { RegistryInv(s) && SequencesInv(s) }

  function SetLaunch(s: State, i: nat, l: Launch): State {
    if i < |s.seqs| then s.(seqs := s.seqs[i := s.seqs[i].(launch := l)]) else s
  }

  function SetSummary(s: State, i: nat, m: Summary): State {
    if i < |s.seqs| then s.(seqs := s.seqs[i := s.seqs[i].(summary := m)]) else s
  }

  predicate Signalled(s: State, i: nat) { i < |s.seqs| && s.seqs[i].stopSignal }

  /** Closing a stop channel, which panics if it is closed already. */
  function Close(s: State, i: nat): State {
    if i >= |s.seqs| then s
    else if s.seqs[i].stopSignal then s.(panicked := true)
    else s.(seqs := s.seqs[i := s.seqs[i].(stopSignal := true)])
  }

  /** Ended, with no results left to fetch. */
  predicate Over(s: State, i: nat) { Ended(s, i) && s.seqs[i].items == 0 }

  ghost function Apply(s: State, step: Step): State
    requires Enabled(s, step)
  {
    match step
    case Create(path, forced) => s.(seqs := s.seqs + [Sequence(path, forced, Asked, NotStarted, false, 0)])
    case LookUp(i) =>
      var path := s.seqs[i].path;
      SetLaunch(s, i, Found(if path in s.registry then Some(s.registry[path]) else None))
    case Decide(i) =>
      var he := s.seqs[i].launch.found;
      if he.None? || Over(s, he.value) then SetLaunch(s, i, Ready)
      else if s.seqs[i].forced then SetLaunch(s, i, Stopping(he.value))
      else SetLaunch(s, i, AlreadyRunning)
    case LookByLaunch(i) =>
      var he := s.seqs[i].launch.he;
      SetLaunch(s, i, if Signalled(s, he) then Waiting(he) else Closing(he))
    case CloseByLaunch(i) =>
      var he := s.seqs[i].launch.he;
      SetLaunch(Close(s, he), i, Waiting(he))
    case Proceed(i) => SetLaunch(s, i, Ready)
    case Register(i) =>
      if Blocked(s, s.seqs[i].path) then SetLaunch(s, i, Overlapping)
      else SetLaunch(s, i, Accepted).(registry := s.registry[s.seqs[i].path := i])
    case Begin(i) => SetSummary(s, i, Running)
    case Finish(i, ok) => SetSummary(s, i, if ok then Finished else Stopped)
    case Halt(i) => SetSummary(s, i, Stopped)
    case Buffer(i, items) => s.(seqs := s.seqs[i := s.seqs[i].(items := items)])
    case AskStop(path) => s.(stops := s.stops + [StopAsked(path)])
    case FindStop(j) =>
      var path := s.stops[j].path;
      s.(stops := s.stops[j := if path in s.registry then StopFound(path, s.registry[path]) else StopDone])
    case LookByStop(j) =>
      var r := s.stops[j];
      s.(stops := s.stops[j := if Signalled(s, r.he) then StopWaiting(r.path, r.he) else StopClosing(r.path, r.he)])
    case CloseByStop(j) =>
      var r := s.stops[j];
      Close(s, r.he).(stops := s.stops[j := StopWaiting(r.path, r.he)])
    case StopDelete(j) => s.(registry := s.registry - {s.stops[j].path}, stops := s.stops[j := StopDone])
    case Clean(path) => s.(registry := s.registry - {path})
  }

  /** Paths stay, launched sequences stay launched, and ended ones stay ended. */
  ghost predicate Advances(s: State, s': State) {
    && |s.seqs| <= |s'.seqs|
    && forall i :: 0 <= i < |s.seqs| ==>
         && s'.seqs[i].path == s.seqs[i].path
         && (s.seqs[i].launch == Accepted ==> s'.seqs[i].launch == Accepted)
         && (s.seqs[i].HasEnded() ==> s'.seqs[i].HasEnded())
  }

  predicate Moves(a: Summary, b: Summary) {
    a == b || (a == NotStarted && b == Running) || (a == Running && (b == Stopped || b == Finished))
  }

  /** One sequence over a step that changes at most its launch, its summary, its signal or its buffer. */
  predicate SeqMoves(a: Sequence, b: Sequence) {
    a.path == b.path && Moves(a.summary, b.summary) && (a.launch == Accepted ==> b.launch == Accepted)
  }

  lemma CloseMoves(s: State, he: nat, k: nat)
    requires k < |s.seqs|
    ensures |Close(s, he).seqs| == |s.seqs| && SeqMoves(s.seqs[k], Close(s, he).seqs[k]) && Close(s, he).seqs[k].launch == s.seqs[k].launch
  {
  }

  /** A summary moves from not started to running to stopped or finished; a launched sequence stays launched. */
  lemma SummaryMoves(s: State, step: Step, i: nat)
    requires Inv(s) && Enabled(s, step) && i < |s.seqs|
    ensures i < |Apply(s, step).seqs| && SeqMoves(s.seqs[i], Apply(s, step).seqs[i])
  {
    match step
    case CloseByLaunch(j) => CloseMoves(s, s.seqs[j].launch.he, i);
    case CloseByStop(j) => CloseMoves(s, s.stops[j].he, i);
    case _ =>
  }

  lemma StepAdvances(s: State, step: Step)
    requires Inv(s) && Enabled(s, step)
    ensures Advances(s, Apply(s, step))
  {
    forall i | 0 <= i < |s.seqs| {
      SummaryMoves(s, step, i);
    }
    assert |Apply(s, step).seqs| >= |s.seqs|;
  }

  lemma StepSequences(s: State, step: Step)
    requires Inv(s) && Enabled(s, step)
    ensures SequencesInv(Apply(s, step))
  {
  }

  lemma EntriesKeep(s: State, s': State)
    requires RegistryInv(s) && Advances(s, s') && forall p :: p in s'.registry ==> p in s.registry && s'.registry[p] == s.registry[p]
    ensures RegistryInv(s')
  {
  }

  lemma RegisterKeeps(s: State, i: nat)
    requires Inv(s) && Enabled(s, Register(i))
    ensures RegistryInv(Apply(s, Register(i)))
  {
    var s', path := Apply(s, Register(i)), s.seqs[i].path;
    StepAdvances(s, Register(i));
    if Blocked(s, path) {
      EntriesKeep(s, s');
    } else {
      forall p | p in s.registry && Overlap(p, path) ensures s'.seqs[s.registry[p]].HasEnded() {
        assert s.seqs[s.registry[p]].HasEnded();
      }
    }
  }

  lemma StepInv(s: State, step: Step)
    requires Inv(s) && Enabled(s, step)
    ensures Inv(Apply(s, step))
  {
    StepSequences(s, step);
    if step.Register? {
      RegisterKeeps(s, step.i);
    } else {
      StepAdvances(s, step);
      EntriesKeep(s, Apply(s, step));
    }
  }

  /** A launch never replaces an entry whose sequence has not ended. */
  lemma NeverOverwritten(s: State, step: Step, p: string)
    requires Inv(s) && Enabled(s, step) && p in s.registry && !s.seqs[s.registry[p]].HasEnded()
    ensures var s' := Apply(s, step);
            (p in s'.registry && s'.registry[p] == s.registry[p]) || (step.StopDelete? && s.stops[step.j].path == p)
  {
    if step.Register? && s.seqs[step.i].path == p {
      assert Blocked(s, p);
    }
  }

  // ---- runs ----

  const INITIAL := State([], map[], [], false)

  /** The states of a run: every step is taken where it is enabled. */
  ghost predicate IsRun(states: seq<State>, steps: seq<Step>) {
    && |states| == |steps| + 1 && states[0] == INITIAL
    && forall k :: 0 <= k < |steps| ==> Taken(states, steps, k)
  }

  /** Step k leads from state k to the next. */
  ghost predicate Taken(states: seq<State>, steps: seq<Step>, k: nat)
    requires k < |steps| < |states|
  {
    Enabled(states[k], steps[k]) && states[k + 1] == Apply(states[k], steps[k])
  }

  /** In every state of every run. */
  lemma {:induction false} EveryRun(states: seq<State>, steps: seq<Step>, k: nat)
    requires IsRun(states, steps) && k <= |steps|
    ensures Inv(states[k])
  {
    if k > 0 {
      EveryRun(states, steps, k - 1);
      assert Taken(states, steps, k - 1);
      StepInv(states[k - 1], steps[k - 1]);
    }
  }

  function Rank(m: Summary): nat { match m case NotStarted => 0 case Running => 1 case Stopped => 2 case Finished => 2 }

  /** Over any stretch of a run a summary only moves forward, and an ended sequence keeps its summary. */
  lemma {:induction false} SummaryForward(states: seq<State>, steps: seq<Step>, j: nat, k: nat, i: nat)
    requires IsRun(states, steps) && j <= k <= |steps| && i < |states[j].seqs|
    ensures i < |states[k].seqs|
    ensures var a, b := states[j].seqs[i], states[k].seqs[i];
            a.path == b.path && Rank(a.summary) <= Rank(b.summary) && (a.HasEnded() ==> b.summary == a.summary)
    decreases k - j
  {
    if j < k {
      SummaryForward(states, steps, j, k - 1, i);
      EveryRun(states, steps, k - 1);
      assert Taken(states, steps, k - 1);
      SummaryMoves(states[k - 1], steps[k - 1], i);
    }
  }

  // ---- what becomes of requests and sequences ----

  /** A sequence is finished exactly by coming to its end without an error, and stopped by an error or a stop signal sent to it. */
  lemma HowSequencesEnd(s: State, step: Step, i: nat)
    requires Inv(s) && Enabled(s, step) && i < |s.seqs| && !s.seqs[i].HasEnded()
    ensures i < |Apply(s, step).seqs|
    ensures var now := Apply(s, step).seqs[i].summary;
            && (now == Finished <==> s.seqs[i].summary == Running && step == Finish(i, true))
            && (now == Stopped <==>
                  s.seqs[i].summary == Running && (step == Finish(i, false) || (step == Halt(i) && s.seqs[i].stopSignal)))
            && (now == Running && s.seqs[i].summary == NotStarted <==> step == Begin(i))
  {
    SummaryMoves(s, step, i);
    if step.CloseByLaunch? { CloseMoves(s, s.seqs[step.i].launch.he, i); }
    if step.CloseByStop? { CloseMoves(s, s.stops[step.j].he, i); }
  }

  /**
   * The decision about a launch: it goes on if nothing was found on its path or what was found is over. Otherwise it is
   * refused, unless it is forced; then the sequence found is to be stopped.
   */
  lemma LaunchDecision(s: State, i: nat)
    requires Enabled(s, Decide(i))
    ensures var found, now := s.seqs[i].launch.found, Apply(s, Decide(i)).seqs[i].launch;
            var busy := found.Some? && !(Ended(s, found.value) && s.seqs[found.value].items == 0);
            && (now == Ready <==> !busy) && (now == AlreadyRunning <==> busy && !s.seqs[i].forced)
            && (busy && s.seqs[i].forced ==> now == Stopping(found.value))
  {
  }

  /** A launch that nothing comes between decides by the sequence registered on its path. */
  lemma LookUpThenDecide(s: State, i: nat)
    requires Inv(s) && Enabled(s, LookUp(i))
    ensures Enabled(Apply(s, LookUp(i)), Decide(i))
    ensures var now, p := Apply(Apply(s, LookUp(i)), Decide(i)).seqs[i].launch, s.seqs[i].path;
            var busy := p in s.registry && (!s.seqs[s.registry[p]].HasEnded() || s.seqs[s.registry[p]].items != 0);
            now == if !busy then Ready else if s.seqs[i].forced then Stopping(s.registry[p]) else AlreadyRunning
  {
    LaunchDecision(Apply(s, LookUp(i)), i);
  }

  /** A launch that is ready is accepted and registered, unless an un-ended registered sequence overlaps with it. */
  lemma LaunchRegisters(s: State, i: nat)
    requires Inv(s) && Enabled(s, Register(i))
    ensures var s', path := Apply(s, Register(i)), s.seqs[i].path;
            if exists p :: p in s.registry && !Ended(s, s.registry[p]) && (p <= path || path <= p)
            then s'.seqs[i].launch == Overlapping && s'.registry == s.registry
            else s'.seqs[i].launch == Accepted && s'.registry == s.registry[path := i]
  {
  }

  /** The request of a launch stops, or waits for, sequence he. */
  predicate StopsFirst(l: Launch, he: nat) { l == Stopping(he) || l == Closing(he) || l == Waiting(he) }

  lemma StopsFirstStep(s: State, step: Step, i: nat, he: nat)
    requires Inv(s) && Enabled(s, step) && i < |s.seqs| && StopsFirst(s.seqs[i].launch, he)
    ensures i < |Apply(s, step).seqs| && (StopsFirst(Apply(s, step).seqs[i].launch, he) || Ended(Apply(s, step), he))
  {
    if step.CloseByLaunch? { CloseMoves(s, s.seqs[step.i].launch.he, i); }
    if step.CloseByStop? { CloseMoves(s, s.stops[step.j].he, i); }
  }

  /** A forced start that has found a sequence in its way gets past it only after that sequence has ended. */
  lemma {:induction false} ForcedStartWaits(states: seq<State>, steps: seq<Step>, j: nat, k: nat, i: nat, he: nat)
    requires IsRun(states, steps) && j <= k <= |steps| && i < |states[j].seqs| && StopsFirst(states[j].seqs[i].launch, he)
    ensures Waits(states[k], i, he)
    decreases k - j
  {
    if j < k {
      ForcedStartWaits(states, steps, j, k - 1, i, he);
      WaitsNext(states, steps, k - 1, i, he);
    }
  }

  /** The launch of sequence i has not got past sequence he, or that has ended. */
  ghost predicate Waits(s: State, i: nat, he: nat) { i < |s.seqs| && (StopsFirst(s.seqs[i].launch, he) || Ended(s, he)) }

  lemma WaitsNext(states: seq<State>, steps: seq<Step>, k: nat, i: nat, he: nat)
    requires IsRun(states, steps) && k < |steps| && Waits(states[k], i, he)
    ensures Waits(states[k + 1], i, he)
  {
    EveryRun(states, steps, k);
    assert Taken(states, steps, k);
    WaitsStep(states[k], steps[k], i, he);
  }

  lemma WaitsStep(s: State, step: Step, i: nat, he: nat)
    requires Inv(s) && Enabled(s, step) && Waits(s, i, he)
    ensures Waits(Apply(s, step), i, he)
  {
    if Ended(s, he) {
      SummaryMoves(s, step, he);
      SummaryMoves(s, step, i);
    } else {
      StopsFirstStep(s, step, i, he);
    }
  }

  /** A stop request has found sequence he and is not through with it. */
  predicate StopUnderWay(r: StopRequest, path: string, he: nat) {
    (r.StopFound? || r.StopClosing? || r.StopWaiting?) && r.path == path && r.he == he
  }

  /** A stop request finds the sequence registered on its path, and is done at once if there is none. */
  lemma StopFinds(s: State, j: nat)
    requires Enabled(s, FindStop(j))
    ensures var now, path := Apply(s, FindStop(j)).stops[j], s.stops[j].path;
            if path in s.registry then StopUnderWay(now, path, s.registry[path]) else now == StopDone
  {
  }

  /** It comes to its end only when that sequence has ended, and then removes the path. */
  lemma StopStep(s: State, step: Step, j: nat, path: string, he: nat)
    requires Enabled(s, step) && j < |s.stops| && StopUnderWay(s.stops[j], path, he)
    ensures j < |Apply(s, step).stops|
    ensures var s' := Apply(s, step);
            || StopUnderWay(s'.stops[j], path, he)
            || (s'.stops[j] == StopDone && Ended(s, he) && Ended(s', he) && s'.registry == s.registry - {path})
  {
  }

  lemma StopDoneStays(s: State, step: Step, j: nat)
    requires Enabled(s, step) && j < |s.stops| && s.stops[j] == StopDone
    ensures j < |Apply(s, step).stops| && Apply(s, step).stops[j] == StopDone
  {
  }

  /** Stop request j has found sequence he, and either is not through with it or that sequence has ended. */
  ghost predicate StopHeld(s: State, j: nat, path: string, he: nat) {
    j < |s.stops| && (StopUnderWay(s.stops[j], path, he) || (s.stops[j] == StopDone && Ended(s, he)))
  }

  lemma StopHeldStep(s: State, step: Step, j: nat, path: string, he: nat)
    requires Inv(s) && Enabled(s, step) && StopHeld(s, j, path, he)
    ensures StopHeld(Apply(s, step), j, path, he)
  {
    if StopUnderWay(s.stops[j], path, he) {
      StopStep(s, step, j, path, he);
    } else {
      StopDoneStays(s, step, j);
      SummaryMoves(s, step, he);
    }
  }

  /** A stop request that has found a sequence is done only after that sequence has ended. */
  lemma {:induction false} StopWaitsForEnd(states: seq<State>, steps: seq<Step>, j: nat, k: nat, i: nat, path: string, he: nat)
    requires IsRun(states, steps) && j <= k <= |steps| && StopHeld(states[j], i, path, he)
    ensures StopHeld(states[k], i, path, he)
    decreases k - j
  {
    if j < k {
      StopWaitsForEnd(states, steps, j, k - 1, i, path, he);
      StopHeldNext(states, steps, k - 1, i, path, he);
    }
  }

  lemma StopHeldNext(states: seq<State>, steps: seq<Step>, k: nat, i: nat, path: string, he: nat)
    requires IsRun(states, steps) && k < |steps| && StopHeld(states[k], i, path, he)
    ensures StopHeld(states[k + 1], i, path, he)
  {
    EveryRun(states, steps, k);
    assert Taken(states, steps, k);
    StopHeldStep(states[k], steps[k], i, path, he);
  }

  /** A launch that waits for a sequence has seen to it that its stop channel is closed, and sequences found exist. */
  predicate ToldByLaunch(s: State, l: Launch) {
    match l
    case Found(found) => found.None? || found.value < |s.seqs|
    case Stopping(he) => he < |s.seqs|
    case Closing(he) => he < |s.seqs|
    case Waiting(he) => Signalled(s, he)
    case _ => true
  }

  /** As does a stop request. */
  predicate ToldByStop(s: State, r: StopRequest) {
    match r
    case StopFound(_, he) => he < |s.seqs|
    case StopClosing(_, he) => he < |s.seqs|
    case StopWaiting(_, he) => Signalled(s, he)
    case _ => true
  }

  ghost predicate Told(s: State) {
    && (forall i :: 0 <= i < |s.seqs| ==> ToldByLaunch(s, s.seqs[i].launch))
    && (forall j :: 0 <= j < |s.stops| ==> ToldByStop(s, s.stops[j]))
  }

  lemma SignalStays(s: State, step: Step, he: nat)
    requires Enabled(s, step) && he < |s.seqs|
    ensures he < |Apply(s, step).seqs| && (Signalled(s, he) ==> Signalled(Apply(s, step), he))
  {
  }

  lemma LaunchStaysTold(s: State, step: Step, l: Launch)
    requires Enabled(s, step) && ToldByLaunch(s, l)
    ensures ToldByLaunch(Apply(s, step), l)
  {
    match l
    case Found(found) => if found.Some? { SignalStays(s, step, found.value); }
    case Stopping(he) => SignalStays(s, step, he);
    case Closing(he) => SignalStays(s, step, he);
    case Waiting(he) => SignalStays(s, step, he);
    case _ =>
  }

  lemma StopStaysTold(s: State, step: Step, r: StopRequest)
    requires Enabled(s, step) && ToldByStop(s, r)
    ensures ToldByStop(Apply(s, step), r)
  {
    match r
    case StopFound(_, he) => SignalStays(s, step, he);
    case StopClosing(_, he) => SignalStays(s, step, he);
    case StopWaiting(_, he) => SignalStays(s, step, he);
    case _ =>
  }

  lemma LaunchTold(s: State, step: Step, i: nat)
    requires Inv(s) && Enabled(s, step) && Told(s) && i < |Apply(s, step).seqs|
    ensures ToldByLaunch(Apply(s, step), Apply(s, step).seqs[i].launch)
  {
    if i < |s.seqs| && Apply(s, step).seqs[i].launch == s.seqs[i].launch {
      LaunchStaysTold(s, step, s.seqs[i].launch);
    }
  }

  lemma StopTold(s: State, step: Step, j: nat)
    requires Inv(s) && Enabled(s, step) && Told(s) && j < |Apply(s, step).stops|
    ensures ToldByStop(Apply(s, step), Apply(s, step).stops[j])
  {
    if j < |s.stops| && Apply(s, step).stops[j] == s.stops[j] {
      StopStaysTold(s, step, s.stops[j]);
    }
  }

  /** In every state of every run, whoever waits for a sequence to end has it told to stop. */
  lemma {:induction false} WaitersHaveTold(states: seq<State>, steps: seq<Step>, k: nat)
    requires IsRun(states, steps) && k <= |steps|
    ensures Told(states[k])
  {
    if k > 0 {
      WaitersHaveTold(states, steps, k - 1);
      EveryRun(states, steps, k - 1);
      assert Taken(states, steps, k - 1);
      var s, step := states[k - 1], steps[k - 1];
      forall i | 0 <= i < |states[k].seqs| { LaunchTold(s, step, i); }
      forall j | 0 <= j < |states[k].stops| { StopTold(s, step, j); }
    }
  }

  // ---- sequences that run without being registered ----

  ghost predicate AllRegistered(s: State) {
    forall i :: 0 <= i < |s.seqs| && s.seqs[i].Live() ==> s.seqs[i].path in s.registry && s.registry[s.seqs[i].path] == i
  }

  /** A stop request that removes its path from the map although another sequence has been launched there meanwhile. */
  predicate Careless(s: State, step: Step) {
    && step.StopDelete? && step.j < |s.stops| && s.stops[step.j].StopWaiting?
    && var p := s.stops[step.j].path; p in s.registry && !Ended(s, s.registry[p])
  }

  /** This is exactly how a live sequence gets out of the map. */
  lemma StaysRegistered(s: State, step: Step)
    requires Inv(s) && Enabled(s, step) && AllRegistered(s)
    ensures AllRegistered(Apply(s, step)) <==> !Careless(s, step)
  {
    var s' := Apply(s, step);
    if Careless(s, step) {
      var p := s.stops[step.j].path;
      assert s'.seqs[s.registry[p]].Live();
    } else {
      forall i | 0 <= i < |s'.seqs| && s'.seqs[i].Live()
        ensures s'.seqs[i].path in s'.registry && s'.registry[s'.seqs[i].path] == i
      {
        LiveStays(s, step, i);
      }
    }
  }

  /** A step that makes a sequence live registers it. */
  lemma MadeLive(s: State, step: Step, i: nat)
    requires Inv(s) && Enabled(s, step)
    requires i < |Apply(s, step).seqs| && Apply(s, step).seqs[i].Live() && (i < |s.seqs| ==> !s.seqs[i].Live())
    ensures step == Register(i) && !Blocked(s, s.seqs[i].path)
  {
  }

  lemma LiveStays(s: State, step: Step, i: nat)
    requires Inv(s) && Enabled(s, step) && AllRegistered(s) && !Careless(s, step)
    requires i < |Apply(s, step).seqs| && Apply(s, step).seqs[i].Live()
    ensures var s' := Apply(s, step); s'.seqs[i].path in s'.registry && s'.registry[s'.seqs[i].path] == i
  {
    if i < |s.seqs| && s.seqs[i].Live() {
      NeverOverwritten(s, step, s.seqs[i].path);
      SummaryMoves(s, step, i);
    } else {
      MadeLive(s, step, i);
    }
  }

  /** Without such stop requests no two live sequences overlap, registered or not. */
  lemma {:induction false} NoLiveOverlap(states: seq<State>, steps: seq<Step>, k: nat, i: nat, j: nat)
    requires IsRun(states, steps) && k <= |steps| && forall m :: 0 <= m < k ==> !Careless(states[m], steps[m])
    requires i < |states[k].seqs| && j < |states[k].seqs| && i != j && states[k].seqs[i].Live() && states[k].seqs[j].Live()
    ensures !Overlap(states[k].seqs[i].path, states[k].seqs[j].path)
  {
    RunRegistered(states, steps, k);
    EveryRun(states, steps, k);
    var s := states[k];
    assert s.registry[s.seqs[i].path] == i && s.registry[s.seqs[j].path] == j;
  }

  lemma {:induction false} RunRegistered(states: seq<State>, steps: seq<Step>, k: nat)
    requires IsRun(states, steps) && k <= |steps| && forall m :: 0 <= m < k ==> !Careless(states[m], steps[m])
    ensures AllRegistered(states[k])
  {
    if k > 0 {
      RunRegistered(states, steps, k - 1);
      EveryRun(states, steps, k - 1);
      assert Taken(states, steps, k - 1);
      StaysRegistered(states[k - 1], steps[k - 1]);
    }
  }

  /** One step further. */
  lemma Extend(states: seq<State>, steps: seq<Step>, step: Step) returns (states': seq<State>, steps': seq<Step>)
    requires IsRun(states, steps) && Enabled(states[|steps|], step)
    ensures IsRun(states', steps') && |states'| == |states| + 1 && states'[|steps'|] == Apply(states[|steps|], step)
  {
    states', steps' := states + [Apply(states[|steps|], step)], steps + [step];
    forall k | 0 <= k < |steps'|
      ensures Taken(states', steps', k)
    {
      if k < |steps| {
        assert Taken(states, steps, k);
        assert states'[k] == states[k] && states'[k + 1] == states[k + 1] && steps'[k] == steps[k];
      }
    }
  }

  /** A sequence is launched on the path and runs. */
  lemma LaunchRuns(states: seq<State>, steps: seq<Step>, path: string) returns (states': seq<State>, steps': seq<Step>)
    requires IsRun(states, steps) && !Blocked(states[|steps|], path) && !states[|steps|].panicked
    requires path in states[|steps|].registry ==> Over(states[|steps|], states[|steps|].registry[path])
    ensures IsRun(states', steps')
    ensures var s := states[|steps|];
            states'[|steps'|] ==
              State(s.seqs + [Sequence(path, false, Accepted, Running, false, 0)], s.registry[path := |s.seqs|], s.stops, false)
  {
    var s := states[|steps|];
    var i := |s.seqs|;
    states', steps' := Extend(states, steps, Create(path, false));
    states', steps' := Extend(states', steps', LookUp(i));
    var s1 := states'[|steps'|];
    assert s1.seqs[..i] == s.seqs && s1.seqs[i].launch.Found?;
    states', steps' := Extend(states', steps', Decide(i));
    var s2 := states'[|steps'|];
    assert s2.seqs == s.seqs + [Sequence(path, false, Ready, NotStarted, false, 0)] && s2.registry == s.registry;
    assert forall p :: p in s.registry ==> Ended(s2, s.registry[p]) || !Ended(s, s.registry[p]);
    states', steps' := Extend(states', steps', Register(i));
    states', steps' := Extend(states', steps', Begin(i));
  }

  /** The sequence registered on the path is told to stop. */
  lemma StopSent(states: seq<State>, steps: seq<Step>, path: string) returns (states': seq<State>, steps': seq<Step>)
    requires IsRun(states, steps) && !states[|steps|].panicked && path in states[|steps|].registry
    requires var s := states[|steps|]; s.registry[path] < |s.seqs| && !s.seqs[s.registry[path]].stopSignal
    ensures IsRun(states', steps')
    ensures var s := states[|steps|];
            var i := s.registry[path];
            states'[|steps'|] ==
              State(s.seqs[i := s.seqs[i].(stopSignal := true)], s.registry, s.stops + [StopWaiting(path, i)], false)
  {
    var s := states[|steps|];
    var j, i := |s.stops|, s.registry[path];
    states', steps' := Extend(states, steps, AskStop(path));
    states', steps' := Extend(states', steps', FindStop(j));
    assert states'[|steps'|] == s.(stops := s.stops + [StopFound(path, i)]);
    states', steps' := Extend(states', steps', LookByStop(j));
    assert states'[|steps'|] == s.(stops := s.stops + [StopClosing(path, i)]);
    states', steps' := Extend(states', steps', CloseByStop(j));
  }

  /**
   * Such a stop request lets two sequences run on one path: the stopped sequence has ended, a new one is launched, the
   * stop request removes the path, and a third is launched.
   */
  lemma TwoRunOnOnePath() returns (states: seq<State>, steps: seq<Step>)
    ensures IsRun(states, steps)
    ensures var s := states[|steps|];
            |s.seqs| == 3 && s.seqs[1].Live() && s.seqs[2].Live() && s.seqs[1].path == s.seqs[2].path
  {
    states, steps := [INITIAL], [];
    states, steps := LaunchRuns(states, steps, "b");
    states, steps := StopSent(states, steps, "b");
    states, steps := Extend(states, steps, Halt(0));
    var s := states[|steps|];
    assert s.registry == map["b" := 0] && |s.seqs| == 1 && Over(s, 0) && !s.panicked;
    states, steps := LaunchRuns(states, steps, "b");
    states, steps := Extend(states, steps, StopDelete(0));
    assert states[|steps|].registry == map[];
    states, steps := LaunchRuns(states, steps, "b");
  }

  // ---- closing the stop channel twice ----

  datatype Closer = ByLaunch(i: nat) | ByStop(j: nat)

  /** A request that has seen the stop channel of sequence `he` open and is about to close it. */
  predicate Closes(s: State, c: Closer, he: nat) {
    match c
    case ByLaunch(i) => i < |s.seqs| && s.seqs[i].launch == Closing(he)
    case ByStop(j) => j < |s.stops| && s.stops[j].StopClosing? && s.stops[j].he == he
  }

  function CloseStep(c: Closer): Step { match c case ByLaunch(i) => CloseByLaunch(i) case ByStop(j) => CloseByStop(j) }

  /** Two requests have seen the stop channel of one sequence open and are both about to close it. */
  ghost predicate Racing(s: State) {
    exists a: Closer, b: Closer, he: nat :: a != b && he < |s.seqs| && Closes(s, a, he) && Closes(s, b, he)
  }

  /** No request is about to close a channel that is closed already. */
  ghost predicate NoStaleClose(s: State) {
    !s.panicked && forall c: Closer, he: nat :: Closes(s, c, he) ==> !Signalled(s, he)
  }

  /** The step that panics is the one that closes a channel closed since it was looked at. */
  lemma PanicsExactly(s: State, step: Step)
    requires Enabled(s, step)
    ensures Apply(s, step).panicked <==> exists c: Closer, he: nat :: step == CloseStep(c) && Closes(s, c, he) && Signalled(s, he)
  {
    if step.CloseByLaunch? {
      assert Closes(s, ByLaunch(step.i), s.seqs[step.i].launch.he);
    } else if step.CloseByStop? {
      assert Closes(s, ByStop(step.j), s.stops[step.j].he);
    }
  }

  /** A request about to close the channel after a step was so before, or has just seen it open. */
  lemma ClosesStep(s: State, step: Step, c: Closer, he: nat)
    requires Enabled(s, step) && Closes(Apply(s, step), c, he)
    ensures step != CloseStep(c) && (Closes(s, c, he) || !Signalled(s, he))
  {
  }

  /** Only such a request closes the channel. */
  lemma SignalStep(s: State, step: Step, he: nat)
    requires Enabled(s, step) && Signalled(Apply(s, step), he) && !Signalled(s, he)
    ensures exists d: Closer :: step == CloseStep(d) && Closes(s, d, he)
  {
    if step.CloseByLaunch? {
      assert Closes(s, ByLaunch(step.i), he);
    } else {
      assert step.CloseByStop? && Closes(s, ByStop(step.j), he);
    }
  }

  lemma StepNoStaleClose(s: State, step: Step)
    requires Enabled(s, step) && NoStaleClose(s) && !Racing(s)
    ensures NoStaleClose(Apply(s, step))
  {
    var s' := Apply(s, step);
    PanicsExactly(s, step);
    forall c: Closer, he: nat | Closes(s', c, he) ensures !Signalled(s', he) {
      ClosesStep(s, step, c, he);
      if Signalled(s', he) && !Signalled(s, he) {
        SignalStep(s, step, he);
        var d :| step == CloseStep(d) && Closes(s, d, he);
        StaysClosing(s, step, c, he);
      }
    }
  }

  /** While one request closes the channel, another that has seen it open stays as it is. */
  lemma StaysClosing(s: State, step: Step, c: Closer, he: nat)
    requires Enabled(s, step) && (step.CloseByLaunch? || step.CloseByStop?) && step != CloseStep(c)
    ensures Closes(Apply(s, step), c, he) <==> Closes(s, c, he)
  {
  }

  /** The channel is closed by the time such a request is through with it. */
  lemma CloseDone(s: State, c: Closer, he: nat)
    requires !s.panicked && he < |s.seqs| && Closes(s, c, he)
    ensures Enabled(s, CloseStep(c))
    ensures var s' := Apply(s, CloseStep(c));
            Signalled(s', he) && |s'.seqs| == |s.seqs| && (s'.panicked <==> Signalled(s, he))
  {
  }

  /** Runs in which no two requests race for one channel never close it twice. */
  lemma {:induction false} NoRaceNoPanic(states: seq<State>, steps: seq<Step>, k: nat)
    requires IsRun(states, steps) && k <= |steps| && forall m :: 0 <= m < k ==> !Racing(states[m])
    ensures NoStaleClose(states[k])
  {
    if k > 0 {
      NoRaceNoPanic(states, steps, k - 1);
      assert Taken(states, steps, k - 1);
      StepNoStaleClose(states[k - 1], steps[k - 1]);
    }
  }

  /** Every run that comes to such a race can go on to panic: one request closes the channel, then the other. */
  lemma RacePanics(states: seq<State>, steps: seq<Step>) returns (states': seq<State>, steps': seq<Step>)
    requires IsRun(states, steps) && !states[|steps|].panicked && Racing(states[|steps|])
    ensures IsRun(states', steps') && states'[|steps'|].panicked && |steps'| <= |steps| + 2
    ensures |states'[|steps'|].seqs| == |states[|steps|].seqs|
  {
    var s := states[|steps|];
    var a: Closer, b: Closer, he: nat :| a != b && he < |s.seqs| && Closes(s, a, he) && Closes(s, b, he);
    CloseDone(s, a, he);
    states', steps' := Extend(states, steps, CloseStep(a));
    var s' := states'[|steps'|];
    if !s'.panicked {
      StaysClosing(s, CloseStep(a), b, he);
      CloseDone(s', b, he);
      states', steps' := Extend(states', steps', CloseStep(b));
    }
  }

  /** Two stop requests for one running sequence come to it, although stop() is meant to be safe to repeat. */
  lemma TwoStopsPanic() returns (states: seq<State>, steps: seq<Step>)
    ensures IsRun(states, steps) && states[|steps|].panicked && |states[|steps|].seqs| == 1
  {
    states, steps := [INITIAL], [];
    states, steps := LaunchRuns(states, steps, "b");
    states, steps := Extend(states, steps, AskStop("b"));
    states, steps := Extend(states, steps, AskStop("b"));
    states, steps := Extend(states, steps, FindStop(0));
    states, steps := Extend(states, steps, FindStop(1));
    assert states[|steps|].stops == [StopFound("b", 0), StopFound("b", 0)];
    states, steps := Extend(states, steps, LookByStop(0));
    states, steps := Extend(states, steps, LookByStop(1));
    var s := states[|steps|];
    assert Closes(s, ByStop(0), 0) && Closes(s, ByStop(1), 0);
    states, steps := RacePanics(states, steps);
  }
}
