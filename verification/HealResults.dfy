/**
 * The results a heal sequence buffers for its client: a bounded queue between the healing routine, which waits while
 * it is full, and status requests, which take everything.
 */
module HealResults {
  import opened Bytes

  datatype Item = Item(resultIndex: int, detail: int)

  const MAX_UNCONSUMED := 1000

  /**
   * How a push ends. Where its wait ends with the timer it never does: the deferred clean-up finds the timer expired and
   * waits for a tick that was taken out of its channel already.
   */
  datatype PushOutcome = Pushed | StopDiscard | StopSignalled | NeverReturns

  /** What happens while a push waits with the lock released. */
  datatype Pause =
    /** A second passes, in which a status request may come in, whose answer may fail to be marshalled. */
    | Tick(pops: bool, marshals: bool)
    | Stop
    | Timeout

  predicate EndsWait(p: Pause) { p.Stop? || (p.Tick? && p.pops) }

  /** The timer fires before a status request or the stop signal ends the wait; it does so at the latest behind all pauses. */
  ghost predicate TimerFirst(pauses: seq<Pause>) {
    forall i :: 0 <= i < |pauses| && EndsWait(pauses[i]) ==> exists j :: 0 <= j < i && pauses[j] == Timeout
  }

  /** The stop signal ends the wait. */
  ghost predicate StopFirst(pauses: seq<Pause>) {
    exists k :: 0 <= k < |pauses| && pauses[k] == Stop && Idle(pauses, k)
  }

  /** A status request ends the wait; its answer may fail to be marshalled. */
  ghost predicate PopFirst(pauses: seq<Pause>, marshals: bool) {
    exists k :: 0 <= k < |pauses| && pauses[k] == Tick(true, marshals) && Idle(pauses, k)
  }

  /** Nothing happens in the first k seconds. */
  ghost predicate Idle(pauses: seq<Pause>, k: nat) {
    k <= |pauses| && forall i :: 0 <= i < k ==> pauses[i].Tick? && !pauses[i].pops
  }

  lemma WaitEnds(pauses: seq<Pause>, k: nat)
    requires Idle(pauses, k)
    ensures k == |pauses| || pauses[k] == Timeout ==> TimerFirst(pauses)
    ensures k < |pauses| && EndsWait(pauses[k]) ==> !TimerFirst(pauses)
    ensures k == |pauses| || pauses[k] == Timeout || EndsWait(pauses[k]) ==> (StopFirst(pauses) <==> k < |pauses| && pauses[k] == Stop)
    ensures k < |pauses| && pauses[k].Tick? && !pauses[k].pops ==> Idle(pauses, k + 1)
  {
  }

  /** No status request is answered without success. */
  ghost predicate AllMarshal(pauses: seq<Pause>) {
    forall i :: 0 <= i < |pauses| && pauses[i].Tick? ==> pauses[i].marshals
  }

  /** Indexes 1, 2, 3, ... without gap or repetition. */
  ghost predicate Consecutive(items: seq<Item>) {
    forall i :: 0 <= i < |items| ==> items[i].resultIndex == i + 1
  }

  /** Growing indexes: no result twice, none out of order. */
  ghost predicate Increasing(items: seq<Item>) {
    forall i, j :: 0 <= i < j < |items| ==> items[i].resultIndex < items[j].resultIndex
  }

  // ---- which results reach a client ----

  /** The results of `all` that are marked, in order. */
  ghost function Picked(all: seq<Item>, marks: seq<bool>): seq<Item>
    requires |marks| <= |all|
  {
    if marks == [] then [] else
    var n := |marks| - 1;
    Picked(all, marks[..n]) + if marks[n] then [all[n]] else []
  }

  ghost predicate AllTrue(marks: seq<bool>) { forall i :: 0 <= i < |marks| ==> marks[i] }

  /** Nothing is marked behind something that is not. */
  ghost predicate Prefix(marks: seq<bool>) { forall i, j :: 0 <= i < j < |marks| && marks[j] ==> marks[i] }

  ghost function Marks(n: nat, mark: bool): (m: seq<bool>)
    ensures |m| == n && forall i :: 0 <= i < n ==> m[i] == mark
  {
    seq(n, _ => mark)
  }

  lemma {:induction false} PickedNext(all: seq<Item>, marks: seq<bool>, mark: bool)
    requires |marks| < |all|
    ensures Picked(all, marks + [mark]) == Picked(all, marks) + if mark then [all[|marks|]] else []
  {
    var both := marks + [mark];
    assert both[..|marks|] == marks && both[|marks|] == mark;
  }

  /** Marking the next n results, or not. */
  lemma {:induction false} PickedMore(all: seq<Item>, marks: seq<bool>, n: nat, mark: bool)
    requires |marks| + n <= |all|
    ensures Picked(all, marks + Marks(n, mark)) == Picked(all, marks) + if mark then all[|marks|..|marks| + n] else []
  {
    if n == 0 {
      assert marks + Marks(0, mark) == marks && all[|marks|..|marks|] == [];
    } else {
      var before, m := marks + Marks(n - 1, mark), |marks| + n - 1;
      PickedMore(all, marks, n - 1, mark);
      PickedNext(all, before, mark);
      assert marks + Marks(n, mark) == before + [mark];
      assert all[|marks|..m] + [all[m]] == all[|marks|..m + 1];
    }
  }

  /** What is picked does not depend on later results. */
  lemma {:induction false} PickedEarly(all: seq<Item>, more: seq<Item>, marks: seq<bool>)
    requires |marks| <= |all|
    ensures Picked(all + more, marks) == Picked(all, marks)
  {
    if marks != [] {
      PickedEarly(all, more, marks[..|marks| - 1]);
    }
  }

  lemma {:induction false} PickedIncreasing(all: seq<Item>, marks: seq<bool>)
    requires |marks| <= |all| && Consecutive(all)
    ensures Increasing(Picked(all, marks))
    ensures forall x :: x in Picked(all, marks) ==> x.resultIndex <= |marks|
  {
    if marks != [] {
      PickedIncreasing(all, marks[..|marks| - 1]);
    }
  }

  lemma {:induction false} PickedAll(all: seq<Item>, marks: seq<bool>)
    requires |marks| <= |all|
    ensures |Picked(all, marks)| <= |marks| && (|Picked(all, marks)| == |marks| <==> AllTrue(marks))
    ensures AllTrue(marks) ==> Picked(all, marks) == all[..|marks|]
  {
    if marks != [] {
      var n := |marks| - 1;
      PickedAll(all, marks[..n]);
      AllTrueStep(marks);
    }
  }

  lemma AllTrueStep(marks: seq<bool>)
    requires marks != []
    ensures AllTrue(marks) <==> AllTrue(marks[..|marks| - 1]) && marks[|marks| - 1]
  {
    var n := |marks| - 1;
    if AllTrue(marks[..n]) {
      assert forall i :: 0 <= i < n ==> marks[i] == marks[..n][i];
    }
  }

  lemma PrefixStep(marks: seq<bool>)
    requires marks != []
    ensures var n := |marks| - 1; Prefix(marks) <==> if marks[n] then AllTrue(marks[..n]) else Prefix(marks[..n])
  {
    var n := |marks| - 1;
    if !marks[n] && Prefix(marks[..n]) {
      forall i, j | 0 <= i < j < |marks| && marks[j] ensures marks[i] {
        assert marks[..n][j] && marks[..n][i] == marks[i];
      }
    }
  }

  lemma ConsecutiveStep(items: seq<Item>, x: Item)
    ensures Consecutive(items + [x]) <==> Consecutive(items) && x.resultIndex == |items| + 1
  {
    if Consecutive(items + [x]) {
      assert forall i :: 0 <= i < |items| ==> items[i] == (items + [x])[i];
      assert (items + [x])[|items|] == x;
    }
  }

  /** What is picked is numbered 1, 2, 3, ... exactly if nothing is marked behind something that is not. */
  lemma {:induction false} PickedConsecutive(all: seq<Item>, marks: seq<bool>)
    requires |marks| <= |all| && Consecutive(all)
    ensures Consecutive(Picked(all, marks)) <==> Prefix(marks)
  {
    if marks != [] {
      var n := |marks| - 1;
      PrefixStep(marks);
      PickedConsecutive(all, marks[..n]);
      if marks[n] {
        assert all[n].resultIndex == n + 1;
        assert Picked(all, marks) == Picked(all, marks[..n]) + [all[n]];
        ConsecutiveStep(Picked(all, marks[..n]), all[n]);
        PickedAll(all, marks[..n]);
        if AllTrue(marks[..n]) { assert Prefix(marks[..n]); }
      } else {
        assert Picked(all, marks) == Picked(all, marks[..n]);
      }
    }
  }

  /** Another result is pushed. */
  lemma AppendNext(all: seq<Item>, marks: seq<bool>, x: Item)
    requires |marks| <= |all| && Consecutive(all) && x.resultIndex == |all| + 1
    ensures Consecutive(all + [x]) && Picked(all + [x], marks) == Picked(all, marks)
    ensures (all + [x])[|marks|..] == all[|marks|..] + [x]
  {
    ConsecutiveStep(all, x);
    PickedEarly(all, [x], marks);
  }

  /** The buffer counts as marked. */
  lemma {:induction false} PickedWithRest(all: seq<Item>, marks: seq<bool>)
    requires |marks| <= |all|
    ensures Picked(all, marks + Marks(|all| - |marks|, true)) == Picked(all, marks) + all[|marks|..]
  {
    PickedMore(all, marks, |all| - |marks|, true);
    assert all[|marks|..|all|] == all[|marks|..];
  }

  /** What was pushed and what became of it, as a value; `hangs` if the healing routine is in a push that never returns. */
  datatype View = View(all: seq<Item>, reached: seq<bool>, stopSignalled: bool, hangs: bool) {
    ghost function Buffered(): seq<Item>
      requires |reached| <= |all|
    {
      all[|reached|..]
    }
  }

  /** What a push does. */
  ghost predicate Pushes(s: View, r: Item, pauses: seq<Pause>, outcome: PushOutcome, s': View)
    requires |s.reached| <= |s.all|
  {
    var full := |s.Buffered()| == MAX_UNCONSUMED;
    if full && TimerFirst(pauses) then outcome == NeverReturns && s' == s.(hangs := true)
    else if full && StopFirst(pauses) then outcome == StopDiscard && s' == s
    else
      && outcome == (if s.stopSignalled then StopSignalled else Pushed)
      && s' == s.(all := s.all + [r.(resultIndex := |s.all| + 1)], reached := s'.reached)
      && if full then exists m :: PopFirst(pauses, m) && s'.reached == s.reached + Marks(MAX_UNCONSUMED, m) else s'.reached == s.reached
  }

  class ResultQueue {
    var items: seq<Item>
    var lastSentResultIndex: int
    var stopSignalled: bool
    /** All results pushed, and of those taken out of the buffer which ones reached a client. */
    ghost var all: seq<Item>
    ghost var reached: seq<bool>

    ghost predicate Valid()
      reads this
    {
      && |items| <= MAX_UNCONSUMED && Consecutive(all)
      && lastSentResultIndex == |reached| == |all| - |items|
      && items == all[|reached|..]
    }

    /** The results clients were given, in order. */
    ghost function Delivered(): seq<Item>
      requires Valid()
      reads this
    {
      Picked(all, reached)
    }

    ghost predicate NothingLost()
      reads this
    {
      AllTrue(reached)
    }

    /** No result that clients have or can still get was pushed after one that was lost. */
    ghost predicate NothingSinceLoss()
      reads this
    {
      Prefix(reached + Marks(|items|, true))
    }

    constructor ()
      ensures Valid() && items == all == [] && reached == [] && !stopSignalled
    {
      items, lastSentResultIndex, stopSignalled := [], 0, false;
      all, reached := [], [];
    }

    /** The rest of the critical section of pushHealResultItem, when there is room. */
    method Append(r: Item)
      requires Valid() && |items| < MAX_UNCONSUMED
      modifies this`items, this`all
      ensures Valid() && Delivered() == old(Delivered())
      ensures all == old(all) + [r.(resultIndex := |old(all)| + 1)]
      ensures items == old(items) + [r.(resultIndex := |old(all)| + 1)]
    {
      var itemsLen := |items|;
      var item: Item;
      if itemsLen > 0 {
        assert items[itemsLen - 1] == all[|all| - 1];
        item := r.(resultIndex := 1 + items[itemsLen - 1].resultIndex);
      } else {
        item := r.(resultIndex := 1 + lastSentResultIndex);
      }
      AppendNext(all, reached, item);
      items := items + [item];
      all := all + [item];
    }

    /** `PopHealStatusJSON` with the lock held: the buffer is reset even if the status cannot be marshalled. */
    method Pop(marshals: bool) returns (r: Option<seq<Item>>)
      requires Valid()
      modifies this`items, this`lastSentResultIndex, this`reached
      ensures Valid() && items == []
      ensures r == if marshals then Some(old(items)) else None
      ensures reached == old(reached) + Marks(|old(items)|, marshals)
      ensures Delivered() == old(Delivered()) + if marshals then old(items) else []
    {
      var numItems := |items|;
      var lastResultIndex := lastSentResultIndex;
      if numItems > 0 {
        lastResultIndex := items[numItems - 1].resultIndex;
      }
      r := if marshals then Some(items) else None;
      PickedMore(all, reached, numItems, marshals);
      assert items == all[|reached|..|reached| + numItems];
      reached := reached + Marks(numItems, marshals);
      lastSentResultIndex := lastResultIndex;
      items := [];
    }

    /** A second of waiting. */
    method Second(pops: bool, marshals: bool)
      requires Valid()
      modifies this`items, this`lastSentResultIndex, this`reached
      ensures Valid() && old(Delivered()) <= Delivered() && items == if pops then [] else old(items)
      ensures reached == if pops then old(reached) + Marks(|old(items)|, marshals) else old(reached)
      ensures old(NothingLost()) && marshals ==> NothingLost()
    {
      if pops {
        var _ := Pop(marshals);
      }
    }

    /** The wait of a push while the buffer is full, and its outcome if that is decided there. */
    method Wait(pauses: seq<Pause>) returns (ended: Option<PushOutcome>)
      requires Valid()
      modifies this`items, this`lastSentResultIndex, this`reached
      ensures Valid() && old(Delivered()) <= Delivered()
      ensures old(NothingLost()) && AllMarshal(pauses) ==> NothingLost()
      ensures ended.None? ==> |items| < MAX_UNCONSUMED
      ensures ended.Some? ==> ended.value == StopDiscard || ended.value == NeverReturns
      ensures ended == Some(NeverReturns) <==> |old(items)| == MAX_UNCONSUMED && TimerFirst(pauses)
      ensures ended == Some(StopDiscard) <==> |old(items)| == MAX_UNCONSUMED && StopFirst(pauses)
      ensures ended.Some? || |old(items)| < MAX_UNCONSUMED ==> reached == old(reached)
      ensures ended.None? && |old(items)| == MAX_UNCONSUMED ==>
                exists m :: PopFirst(pauses, m) && reached == old(reached) + Marks(MAX_UNCONSUMED, m)
    {
      ended := None;
      var k := 0;
      while |items| == MAX_UNCONSUMED
        invariant Valid() && old(Delivered()) <= Delivered() && k <= |pauses|
        invariant old(NothingLost()) && AllMarshal(pauses) ==> NothingLost()
        invariant |items| == MAX_UNCONSUMED || |old(items)| < MAX_UNCONSUMED ==> reached == old(reached)
        invariant |items| == MAX_UNCONSUMED ==> items == old(items) && Idle(pauses, k)
        invariant |items| < MAX_UNCONSUMED == |old(items)| ==>
                    exists m :: PopFirst(pauses, m) && reached == old(reached) + Marks(MAX_UNCONSUMED, m)
        invariant |items| < MAX_UNCONSUMED ==> |old(items)| < MAX_UNCONSUMED || (!TimerFirst(pauses) && !StopFirst(pauses))
        decreases |pauses| - k
      {
        WaitEnds(pauses, k);
        if k == |pauses| || pauses[k] == Timeout {
          return Some(NeverReturns);
        }
        if pauses[k] == Stop {
          return Some(StopDiscard);
        }
        Second(pauses[k].pops, pauses[k].marshals);
        k := k + 1;
      }
    }

    /**
     * `pushHealResultItem`: waits while the buffer is full; the result is either appended once or not at all. It does
     * not return exactly if the buffer is full and the timer ends the wait.
     */
    method Push(r: Item, pauses: seq<Pause>) returns (outcome: PushOutcome)
      requires Valid()
      modifies this`items, this`all, this`lastSentResultIndex, this`reached
      ensures Valid() && old(Delivered()) <= Delivered()
      ensures old(NothingLost()) && AllMarshal(pauses) ==> NothingLost()
      ensures all == if outcome == Pushed || outcome == StopSignalled then old(all) + [r.(resultIndex := |old(all)| + 1)] else old(all)
      ensures outcome == NeverReturns <==> |old(items)| == MAX_UNCONSUMED && TimerFirst(pauses)
      ensures outcome == StopDiscard <==> |old(items)| == MAX_UNCONSUMED && StopFirst(pauses)
      ensures outcome == Pushed || outcome == StopSignalled ==> (outcome == StopSignalled <==> stopSignalled)
      ensures Pushes(View(old(all), old(reached), stopSignalled, false), r, pauses, outcome,
                     View(all, reached, stopSignalled, outcome == NeverReturns))
    {
      var ended := Wait(pauses);
      if ended.Some? {
        return ended.value;
      }
      Append(r);
      outcome := if stopSignalled then StopSignalled else Pushed;
    }

    /** Whatever is lost, nothing is delivered twice or out of order. */
    lemma NoRepetition()
      requires Valid()
      ensures Increasing(Delivered() + items)
    {
      PickedWithRest(all, reached);
      PickedIncreasing(all, reached + Marks(|items|, true));
    }

    /**
     * The results delivered, followed by those buffered, are 1, 2, 3, ... exactly as long as no result pushed after a
     * lost one is among them; without loss they are all results.
     */
    lemma ConsecutiveUnlessLost()
      requires Valid()
      ensures Consecutive(Delivered() + items) <==> NothingSinceLoss()
      ensures NothingLost() ==> Delivered() + items == all
    {
      PickedWithRest(all, reached);
      PickedConsecutive(all, reached + Marks(|items|, true));
      PickedAll(all, reached);
    }
  }

  datatype Step = Pushing(r: Item, pauses: seq<Pause>) | Popping(marshals: bool) | Stopping

  /** All answers in the run can be marshalled. */
  ghost predicate Marshals(step: Step) {
    match step
    case Pushing(_, pauses) => AllMarshal(pauses)
    case Popping(marshals) => marshals
    case Stopping => true
  }

  datatype Response = Ended(outcome: PushOutcome) | Status(results: Option<seq<Item>>) | Nothing

  /** What a step does, and what its caller gets. After a push that does not return the healing routine pushes no more. */
  ghost predicate Follows(s: View, step: Step, s': View, r: Response) {
    && |s.reached| <= |s.all|
    && match step
       case Pushing(item, pauses) =>
         if s.hangs then r == Nothing && s' == s else r.Ended? && Pushes(s, item, pauses, r.outcome, s')
       case Popping(marshals) =>
         && s' == s.(reached := s.reached + Marks(|s.Buffered()|, marshals))
         && r == Status(if marshals then Some(s.Buffered()) else None)
       case Stopping => r == Nothing && s' == s.(stopSignalled := true)
  }

  ghost predicate Runs(trace: seq<View>, steps: seq<Step>, rs: seq<Response>) {
    && |trace| == |steps| + 1 && |rs| == |steps|
    && forall k :: 0 <= k < |steps| ==> Follows(trace[k], steps[k], trace[k + 1], rs[k])
  }

  lemma RunsOn(trace: seq<View>, steps: seq<Step>, rs: seq<Response>, step: Step, s: View, r: Response)
    requires Runs(trace, steps, rs) && Follows(trace[|steps|], step, s, r)
    ensures Runs(trace + [s], steps + [step], rs + [r])
  {
    var t, ss, all := trace + [s], steps + [step], rs + [r];
    forall k | 0 <= k < |ss| ensures Follows(t[k], ss[k], t[k + 1], all[k]) {
      if k < |steps| { assert t[k] == trace[k] && t[k + 1] == trace[k + 1]; }
    }
  }

  /** One step. */
  method Take(q: ResultQueue, step: Step, hung: bool) returns (r: Response, hangs: bool)
    requires q.Valid()
    modifies q
    ensures q.Valid() && (old(q.NothingLost()) && Marshals(step) ==> q.NothingLost())
    ensures Follows(View(old(q.all), old(q.reached), old(q.stopSignalled), hung), step,
                    View(q.all, q.reached, q.stopSignalled, hangs), r)
  {
    r, hangs := Nothing, hung;
    match step {
      case Pushing(item, pauses) =>
        if !hung {
          var outcome := q.Push(item, pauses);
          r, hangs := Ended(outcome), outcome == NeverReturns;
        }
      case Popping(marshals) =>
        var results := q.Pop(marshals);
        r := Status(results);
      case Stopping =>
        q.stopSignalled := true;
    }
  }

  /**
   * In every interleaving of pushes and status requests at most 1000 results are buffered, and clients and buffer
   * together hold no result twice or out of order. They hold 1, 2, 3, ... exactly as long as no result pushed after a
   * lost one is among them; if all answers can be marshalled, they hold all results. A push that does not return is
   * the healing routine's last.
   */
  method AnyInterleaving(q: ResultQueue, steps: seq<Step>) returns (rs: seq<Response>, hangs: bool, ghost trace: seq<View>)
    requires q.Valid() && q.all == []
    modifies q
    ensures Runs(trace, steps, rs)
    ensures trace[0] == View([], [], old(q.stopSignalled), false) && trace[|steps|] == View(q.all, q.reached, q.stopSignalled, hangs)
    ensures q.Valid() && |q.items| <= 1000 && Increasing(q.Delivered() + q.items)
    ensures Consecutive(q.Delivered() + q.items) <==> q.NothingSinceLoss()
    ensures (forall i :: 0 <= i < |steps| ==> Marshals(steps[i])) ==> q.Delivered() + q.items == q.all && Consecutive(q.all)
  {
    rs, hangs, trace := [], false, [View(q.all, q.reached, q.stopSignalled, false)];
    var k := 0;
    while k < |steps|
      invariant k <= |steps| && q.Valid()
      invariant Runs(trace, steps[..k], rs) && trace[0] == View([], [], old(q.stopSignalled), false)
      invariant trace[k] == View(q.all, q.reached, q.stopSignalled, hangs)
      invariant (forall i :: 0 <= i < k ==> Marshals(steps[i])) ==> q.NothingLost()
    {
      var r;
      r, hangs := Take(q, steps[k], hangs);
      ghost var now := View(q.all, q.reached, q.stopSignalled, hangs);
      assert steps[..k + 1] == steps[..k] + [steps[k]];
      RunsOn(trace, steps[..k], rs, steps[k], now, r);
      rs, trace := rs + [r], trace + [now];
      k := k + 1;
    }
    assert steps[..k] == steps;
    q.NoRepetition();
    q.ConsecutiveUnlessLost();
  }

  /** After 1000 results that nobody fetches the next push never returns. */
  method TimerHangs(r: Item) returns (outcome: PushOutcome)
    ensures outcome == NeverReturns
  {
    var q := new ResultQueue();
    for i := 0 to MAX_UNCONSUMED
      invariant q.Valid() && fresh(q) && |q.items| == i
    {
      q.Append(r);
    }
    outcome := q.Push(r, [Timeout]);
  }

  /** A status that cannot be marshalled shows as soon as another result is pushed: index 1 is missing. */
  method GapAfterFailure() returns (first: Option<seq<Item>>, second: Option<seq<Item>>)
    ensures first == None && second == Some([Item(2, 0)])
  {
    var q := new ResultQueue();
    q.Append(Item(0, 0));
    assert |q.all| == 1;
    first := q.Pop(false);
    q.Append(Item(0, 0));
    assert q.items == [Item(2, 0)];
    second := q.Pop(true);
  }
}
