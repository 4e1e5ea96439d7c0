/**
 * The two goroutines of Heal and the pipe between them, as a state machine: the decoder's writes wait until the encoder
 * has taken their bytes, the encoder's reads wait for a write or for the end, and the two advance in any order.
 */
module HealPipe {
  import opened Bytes
  import opened Geometry
  import Enc = ErasureEncode

  /** The decoder's writes and how it ends, the encoder's buffer, and which of the encoder's rounds keep their quorum. */
  datatype Job = Job(writes: seq<seq<byte>>, stream: seq<byte>, ok: bool, bufLen: nat, quorum: nat -> bool) {
    /** `stream` is what the writes make up; none of them is empty. */
    predicate Valid() { bufLen > 0 && stream == Flatten(writes) && forall i :: 0 <= i < |writes| ==> writes[i] != [] }
  }

  datatype Encoder =
    | Reading(buf: seq<byte>)
    | Sending(block: seq<byte>, last: bool)
    | Returned(err: Enc.Error)

  /** `offered`: what is not taken yet of the write in progress, if there is one; `left`: the writes to come. */
  datatype State = State(offered: seq<byte>, left: seq<seq<byte>>, closed: bool, taken: nat,
                         rounds: nat, sent: seq<seq<byte>>, encoder: Encoder)

  datatype Step =
    /** The decoder begins a write, and closes the pipe behind the last one. */
    | Offer
    | Shut
    /** The encoder takes bytes, has its buffer full or sees the end, and sends the block. */
    | Take
    | Fill
    | SeeEnd
    | Send

  predicate Enabled(j: Job, s: State, step: Step) {
    match step
    case Offer => s.offered == [] && s.left != []
    case Shut => s.offered == [] && s.left == [] && !s.closed
    case Take => s.offered != [] && s.encoder.Reading? && |s.encoder.buf| < j.bufLen
    case Fill => s.encoder.Reading? && |s.encoder.buf| == j.bufLen
    case SeeEnd => s.closed && s.encoder.Reading? && |s.encoder.buf| < j.bufLen
    case Send => s.encoder.Sending?
  }

  function Apply(j: Job, s: State, step: Step): State
    requires Enabled(j, s, step)
  {
    match step
    case Offer => s.(offered := s.left[0], left := s.left[1..])
    case Shut => s.(closed := true)
    case Take =>
      var k := Min(j.bufLen - |s.encoder.buf|, |s.offered|);
      s.(offered := s.offered[k..], taken := s.taken + k, encoder := Reading(s.encoder.buf + s.offered[..k]))
    case Fill => s.(encoder := Sending(s.encoder.buf, false))
    case SeeEnd =>
      if !j.ok then s.(encoder := Returned(Enc.SourceFailed))
      else if s.encoder.buf == [] && s.rounds != 0 then s.(encoder := Returned(Enc.Nil))
      else s.(encoder := Sending(s.encoder.buf, true))
    case Send =>
      var b := s.encoder.block;
      s.(sent := if b == [] then s.sent else s.sent + [b],
         rounds := s.rounds + 1,
         encoder := if !j.quorum(s.rounds) then Returned(Enc.WriteQuorum)
                    else if s.encoder.last then Returned(Enc.Nil)
                    else Reading([]))
  }

  function Start(j: Job): State { State([], j.writes, false, 0, 0, [], Reading([])) }

  ghost predicate IsRun(j: Job, states: seq<State>, steps: seq<Step>) {
    && |states| == |steps| + 1 && states[0] == Start(j)
    && forall k :: 0 <= k < |steps| ==> Enabled(j, states[k], steps[k]) && states[k + 1] == Apply(j, states[k], steps[k])
  }

  /** Neither side can move any more. */
  ghost predicate Stuck(j: Job, s: State) { forall step: Step :: !Enabled(j, s, step) }

  /** The decoder waits in a write for bytes to be taken. */
  predicate DecoderWaits(s: State) { s.offered != [] }

  // ---- what every step keeps ----

  /** What the encoder has taken and what the decoder still has to write make up the stream, in order. */
  ghost predicate PipeInv(j: Job, s: State) {
    && s.taken <= |j.stream| && j.stream[s.taken..] == s.offered + Flatten(s.left)
    && (s.closed ==> s.offered == [] && s.left == [])
    && forall i :: 0 <= i < |s.left| ==> s.left[i] != []
  }

  /** `b` are the last of the bytes taken, and the blocks sent are those cut from the bytes before. */
  ghost predicate Holds(stream: seq<byte>, ok: bool, n: nat, taken: nat, rounds: nat, sent: seq<seq<byte>>, b: seq<byte>)
    requires n > 0
  {
    && |b| <= n && |b| <= taken <= |stream| && b == stream[taken - |b|..taken]
    && Enc.Accounted(stream, !ok, n, taken - |b|, sent)
    && (rounds == 0 ==> sent == [] && |b| == taken)
    && (rounds > 0 ==> |b| < taken)
  }

  ghost predicate EncoderInv(j: Job, s: State)
    requires j.bufLen > 0
  {
    match s.encoder
    case Reading(buf) => Holds(j.stream, j.ok, j.bufLen, s.taken, s.rounds, s.sent, buf)
    case Sending(block, last) =>
      && Holds(j.stream, j.ok, j.bufLen, s.taken, s.rounds, s.sent, block)
      && if last then s.closed && j.ok && |block| < j.bufLen else |block| == j.bufLen
    case Returned(err) =>
      && s.sent <= Blocks(j.stream, j.bufLen)
      && (err == Enc.Nil ==> j.ok && s.sent == Blocks(j.stream, j.bufLen))
      && (err != Enc.WriteQuorum ==> s.closed)
  }

  ghost predicate Inv(j: Job, s: State)
    requires j.bufLen > 0
  {
    PipeInv(j, s) && EncoderInv(j, s)
  }

  lemma TakePrefix(stream: seq<byte>, taken: nat, offered: seq<byte>, rest: seq<byte>, k: nat)
    requires taken <= |stream| && stream[taken..] == offered + rest && k <= |offered|
    ensures taken + k <= |stream| && stream[taken + k..] == offered[k..] + rest
    ensures stream[taken..taken + k] == offered[..k]
  {
    assert |stream| - taken == |offered| + |rest|;
    assert stream[taken + k..] == stream[taken..][k..];
    assert stream[taken..taken + k] == stream[taken..][..k];
  }

  lemma StepPipe(j: Job, s: State, step: Step)
    requires PipeInv(j, s) && Enabled(j, s, step)
    ensures PipeInv(j, Apply(j, s, step))
  {
    if step.Take? {
      TakePrefix(j.stream, s.taken, s.offered, Flatten(s.left), Min(j.bufLen - |s.encoder.buf|, |s.offered|));
    } else if step.Offer? {
      assert Flatten(s.left) == s.left[0] + Flatten(s.left[1..]);
    }
  }

  /** k more bytes are taken. */
  lemma HoldsMore(stream: seq<byte>, ok: bool, n: nat, taken: nat, rounds: nat, sent: seq<seq<byte>>, b: seq<byte>,
                  offered: seq<byte>, rest: seq<byte>, k: nat)
    requires n > 0 && Holds(stream, ok, n, taken, rounds, sent, b)
    requires stream[taken..] == offered + rest && k <= |offered| && |b| + k <= n
    ensures taken + k <= |stream| && Holds(stream, ok, n, taken + k, rounds, sent, b + offered[..k])
  {
    TakePrefix(stream, taken, offered, rest, k);
    assert stream[taken - |b|..taken + k] == stream[taken - |b|..taken] + stream[taken..taken + k];
    assert taken + k - |b + offered[..k]| == taken - |b|;
  }

  lemma StepTake(j: Job, s: State)
    requires j.bufLen > 0 && Inv(j, s) && Enabled(j, s, Take)
    ensures EncoderInv(j, Apply(j, s, Take))
  {
    var b, k := s.encoder.buf, Min(j.bufLen - |s.encoder.buf|, |s.offered|);
    HoldsMore(j.stream, j.ok, j.bufLen, s.taken, s.rounds, s.sent, b, s.offered, Flatten(s.left), k);
  }

  /** At the end of the stream everything was taken. */
  lemma ClosedTakenAll(j: Job, s: State)
    requires PipeInv(j, s) && s.offered == [] && s.left == []
    ensures s.taken == |j.stream|
  {
    assert j.stream[s.taken..] == [];
  }

  /** The block held is sent: it is the next of the stream's blocks, or there is none left. */
  lemma HoldsSent(stream: seq<byte>, ok: bool, n: nat, taken: nat, rounds: nat, sent: seq<seq<byte>>, b: seq<byte>)
    requires n > 0 && Holds(stream, ok, n, taken, rounds, sent, b) && (|b| == n || taken == |stream|)
    ensures var sent' := if b == [] then sent else sent + [b];
            && sent' <= Blocks(stream, n)
            && (taken == |stream| ==> sent' == Blocks(stream, n))
            && (|b| == n ==> Holds(stream, ok, n, taken, rounds + 1, sent', []))
    ensures sent <= Blocks(stream, n)
  {
    Enc.AccountNext(stream, !ok, n, taken - |b|, taken, sent);
    assert stream[taken..taken] == [];
  }

  lemma StepSeeEnd(j: Job, s: State)
    requires j.bufLen > 0 && Inv(j, s) && Enabled(j, s, SeeEnd)
    ensures EncoderInv(j, Apply(j, s, SeeEnd))
  {
    ClosedTakenAll(j, s);
    HoldsSent(j.stream, j.ok, j.bufLen, s.taken, s.rounds, s.sent, s.encoder.buf);
  }

  lemma StepSend(j: Job, s: State)
    requires j.bufLen > 0 && Inv(j, s) && Enabled(j, s, Send)
    ensures EncoderInv(j, Apply(j, s, Send))
  {
    if s.closed { ClosedTakenAll(j, s); }
    HoldsSent(j.stream, j.ok, j.bufLen, s.taken, s.rounds, s.sent, s.encoder.block);
  }

  lemma StepInv(j: Job, s: State, step: Step)
    requires j.bufLen > 0 && Inv(j, s) && Enabled(j, s, step)
    ensures Inv(j, Apply(j, s, step))
  {
    StepPipe(j, s, step);
    match step
    case Take => StepTake(j, s);
    case SeeEnd => StepSeeEnd(j, s);
    case Send => StepSend(j, s);
    case _ =>
  }

  lemma StartInv(j: Job)
    requires j.Valid()
    ensures Inv(j, Start(j))
  {
    assert j.stream[0..] == j.stream;
  }

  // ---- the outcome does not depend on the interleaving ----

  datatype Outcome = Outcome(taken: nat, err: Enc.Error)

  /** Encode over the whole stream at once, from `pos` on with `rounds` rounds done. */
  function Sequential(j: Job, pos: nat, rounds: nat): (o: Outcome)
    requires j.bufLen > 0 && pos <= |j.stream|
    ensures o.taken <= |j.stream|
    decreases |j.stream| - pos
  {
    if |j.stream| - pos >= j.bufLen then
      if j.quorum(rounds) then Sequential(j, pos + j.bufLen, rounds + 1) else Outcome(pos + j.bufLen, Enc.WriteQuorum)
    else
      Outcome(|j.stream|,
              if !j.ok then Enc.SourceFailed
              else if (pos == |j.stream| && rounds != 0) || j.quorum(rounds) then Enc.Nil
              else Enc.WriteQuorum)
  }

  /** What the encoder will have taken and returned in the end, seen from a state on the way. */
  function Due(j: Job, s: State): Outcome
    requires j.bufLen > 0 && s.taken <= |j.stream|
  {
    match s.encoder
    case Reading(buf) => if |buf| <= s.taken then Sequential(j, s.taken - |buf|, s.rounds) else Outcome(0, Enc.Nil)
    case Sending(_, last) =>
      if !j.quorum(s.rounds) then Outcome(s.taken, Enc.WriteQuorum)
      else if last then Outcome(s.taken, Enc.Nil)
      else Sequential(j, s.taken, s.rounds + 1)
    case Returned(err) => Outcome(s.taken, err)
  }

  lemma DueFill(j: Job, s: State)
    requires j.bufLen > 0 && Enabled(j, s, Fill) && |s.encoder.buf| <= s.taken <= |j.stream|
    ensures Due(j, Apply(j, s, Fill)) == Due(j, s)
  {
  }

  lemma DueSeeEnd(j: Job, s: State)
    requires j.bufLen > 0 && Enabled(j, s, SeeEnd) && |s.encoder.buf| <= s.taken == |j.stream|
    ensures Due(j, Apply(j, s, SeeEnd)) == Due(j, s)
  {
  }

  lemma StepDue(j: Job, s: State, step: Step)
    requires j.bufLen > 0 && Enabled(j, s, step) && s.taken <= |j.stream| && Apply(j, s, step).taken <= |j.stream|
    requires (s.encoder.Reading? ==> |s.encoder.buf| <= s.taken) && (s.closed ==> s.taken == |j.stream|)
    ensures Due(j, Apply(j, s, step)) == Due(j, s)
  {
    match step
    case Fill => DueFill(j, s);
    case SeeEnd => DueSeeEnd(j, s);
    case _ =>
  }

  /** In every state of every run the bytes are in order, and the outcome is that of Encode over the whole stream. */
  lemma {:induction false} EveryRun(j: Job, states: seq<State>, steps: seq<Step>, k: nat)
    requires j.Valid() && IsRun(j, states, steps) && k <= |steps|
    ensures Inv(j, states[k]) && Due(j, states[k]) == Sequential(j, 0, 0)
  {
    if k == 0 {
      StartInv(j);
    } else {
      EveryRun(j, states, steps, k - 1);
      StepInv(j, states[k - 1], steps[k - 1]);
      if states[k - 1].closed { ClosedTakenAll(j, states[k - 1]); }
      StepDue(j, states[k - 1], steps[k - 1]);
    }
  }

  // ---- every run ends ----

  function Measure(j: Job, s: State): int {
    |s.left| + (if s.closed then 0 else 1) + 3 * (|j.stream| - s.taken)
    + match s.encoder
      case Reading(buf) => 2 * |buf| + 2
      case Sending(_, last) => if last then 1 else 3
      case Returned(_) => 0
  }

  lemma StepShrinks(j: Job, s: State, step: Step)
    requires j.bufLen > 0 && Enabled(j, s, step) && Apply(j, s, step).taken <= |j.stream|
    ensures 0 <= Measure(j, Apply(j, s, step)) < Measure(j, s)
  {
  }

  lemma {:induction false} RunsEnd(j: Job, states: seq<State>, steps: seq<Step>, k: nat)
    requires j.Valid() && IsRun(j, states, steps) && k <= |steps|
    ensures 0 <= Measure(j, states[k]) <= |j.writes| + 3 * |j.stream| + 3 - k
  {
    EveryRun(j, states, steps, k);
    if k > 0 {
      RunsEnd(j, states, steps, k - 1);
      EveryRun(j, states, steps, k - 1);
      StepShrinks(j, states[k - 1], steps[k - 1]);
    }
  }

  // ---- how it ends ----

  /** The quorum is lost on a full block with more of the stream behind it. */
  ghost predicate LostEarly(j: Job) { exists i: nat :: !j.quorum(i) && (i + 1) * j.bufLen < |j.stream| }

  /** Every block finds its quorum; an empty stream counts as one block. */
  ghost predicate AllQuorate(j: Job) { forall i: nat :: i == 0 || i * j.bufLen < |j.stream| ==> j.quorum(i) }

  /** Encode's outcome on reaching a full block without quorum. */
  lemma LostAt(j: Job, k: nat)
    requires j.Valid() && (k + 1) * j.bufLen <= |j.stream| && !j.quorum(k) && forall i: nat :: i < k ==> j.quorum(i)
    ensures (k + 1) * j.bufLen < |j.stream| <==> LostEarly(j)
    ensures !AllQuorate(j)
  {
    MulSucc(k, j.bufLen);
    forall i: nat | !j.quorum(i) ensures (k + 1) * j.bufLen <= (i + 1) * j.bufLen {
      MulMono(k + 1, i + 1, j.bufLen);
    }
  }

  /** Encode's outcome on reaching the last, partial block. */
  lemma AtTheEnd(j: Job, k: nat)
    requires j.Valid() && k * j.bufLen <= |j.stream| < (k + 1) * j.bufLen && forall i: nat :: i < k ==> j.quorum(i)
    ensures !LostEarly(j)
    ensures AllQuorate(j) <==> (k * j.bufLen == |j.stream| && k != 0) || j.quorum(k)
  {
    forall i: nat | !j.quorum(i) ensures |j.stream| < (i + 1) * j.bufLen {
      MulMono(k + 1, i + 1, j.bufLen);
    }
    forall i: nat | k <= i ensures k * j.bufLen <= i * j.bufLen {
      MulMono(k, i, j.bufLen);
    }
    forall i: nat | k < i ensures |j.stream| < i * j.bufLen {
      MulMono(k + 1, i, j.bufLen);
    }
  }

  lemma {:induction false} SequentialOutcome(j: Job, k: nat)
    requires j.Valid() && k * j.bufLen <= |j.stream| && forall i: nat :: i < k ==> j.quorum(i)
    ensures Sequential(j, k * j.bufLen, k).taken < |j.stream| <==> LostEarly(j)
    ensures Sequential(j, k * j.bufLen, k).err == Enc.Nil <==> j.ok && AllQuorate(j)
    decreases |j.stream| - k * j.bufLen
  {
    MulSucc(k, j.bufLen);
    if |j.stream| - k * j.bufLen < j.bufLen {
      AtTheEnd(j, k);
    } else if j.quorum(k) {
      SequentialOutcome(j, k + 1);
    } else {
      LostAt(j, k);
    }
  }

  /**
   * When neither side can move, the encoder has returned what Encode returns over the whole stream: success exactly
   * when the decoder succeeded and every block found its quorum. The decoder is left waiting in a write, for good,
   * exactly when the quorum was lost before the end of the stream; otherwise it has closed the pipe.
   */
  lemma HowItEnds(j: Job, states: seq<State>, steps: seq<Step>)
    requires j.Valid() && IsRun(j, states, steps) && Stuck(j, states[|steps|])
    ensures var s := states[|steps|];
            && s.encoder.Returned?
            && (s.encoder.err == Enc.Nil <==> j.ok && AllQuorate(j))
            && (s.encoder.err == Enc.Nil ==> s.sent == Blocks(j.stream, j.bufLen) && Flatten(s.sent) == j.stream)
            && s.sent <= Blocks(j.stream, j.bufLen)
            && (DecoderWaits(s) <==> LostEarly(j))
            && (s.closed <==> !LostEarly(j))
  {
    var s := states[|steps|];
    EveryRun(j, states, steps, |steps|);
    SequentialOutcome(j, 0);
    BlocksJoin(j.stream, j.bufLen);
    assert !Enabled(j, s, Offer) && !Enabled(j, s, Shut) && !Enabled(j, s, Take);
    assert !Enabled(j, s, Fill) && !Enabled(j, s, SeeEnd) && !Enabled(j, s, Send);
    if s.closed { ClosedTakenAll(j, s); }
  }
}
