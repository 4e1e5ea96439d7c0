/**
 * One object behind the disk cache: its version in the backend, its cache entry, the GET requests under way and the
 * fills of the cache that read along with their clients. Whole-object requests only. A request takes its lock and asks
 * the backend several times; each of these is a step, a fill is one, and anything may happen in between.
 */
module CacheCoherence {
  import opened Bytes

  type ETag = seq<byte>

  datatype Version = Version(data: seq<byte>, attrs: int)

  datatype Backend = Up(version: Option<Version>) | Down

  /** cache.json, and part.1 if the object itself has been stored. */
  datatype Entry = Entry(etag: ETag, attrs: int, size: nat, hits: nat, data: Option<seq<byte>>)

  /** What a request finds around it. */
  datatype Env = Env(
    /** Excluded from caching. */
    excluded: bool,
    /** Not cacheable, or under an object lock. */
    uncacheable: bool,
    /** The backend fails to open the object after its metadata were read. */
    openFails: bool,
    /** diskUsageHigh and diskAvailable of the cache drive. */
    usageHigh: bool,
    available: bool,
    /** part.1 is written to its end. */
    writeOk: bool)

  datatype Reply =
    | Bytes(data: seq<byte>)
    /** Answered from the backend, the reader tied to a fill of the cache. */
    | Teed
    | NotFound
    | Failed
    /** The reader ends with an error before the object is complete. */
    | Broken

  /** cache.json after one more access; part.1 stays. */
  function Saved(entry: Option<Entry>, etag: ETag, attrs: int, size: nat, incHitsOnly: bool): Entry {
    var m := if entry.Some? then entry.value else Entry([], 0, 0, 0, None);
    m.(etag := etag, attrs := if incHitsOnly then m.attrs else attrs, size := size, hits := m.hits + 1)
  }

  /** How far a GET has come. */
  datatype Request =
    | Starting
    /** To be answered from the backend, past the cache. */
    | Direct
    /** The cached object, if there is one, and the hits counted so far. */
    | Looked(found: Option<Entry>, hits: nat)
    /** The backend has no such object: the cached one is to be deleted. */
    | Gone
    /** What was found has the ETag of the backend's version: its metadata are to be updated. */
    | Matching(copy: Entry, version: Version)
    /** What was found has another: it is to be deleted. */
    | Stale(hits: nat, version: Version)
    | Missed(hits: nat, version: Version)
    /** Opened in the backend, with a hit still to be counted for the version asked for before. */
    | Counting(version: Version, current: Version)
    | Done

  /** A reply, and what the backend held when it was asked. */
  datatype Answer = Answer(reply: Reply, asked: Backend) {
    /** The client is not given other bytes than the version that was current when a backend that is up was asked. */
    predicate Right() {
      asked.Up? ==>
        if asked.version.None? then reply == NotFound
        else reply.Bytes? ==> reply.data == asked.version.value.data
    }

    /** There is a reason for every answer without bytes; `fails` if the backend failed to open the object. */
    predicate Reasoned(fails: bool) {
      && (reply == Failed ==> asked == Down || fails)
      && (reply == NotFound <==> asked == Up(None))
      && (reply == Teed || reply == Broken ==> asked.Up? && asked.version.Some?)
    }
  }

  /** What comes of a request: the reply, the entry it leaves, and the version it starts to fill the cache with. */
  datatype Outcome = Outcome(reply: Reply, entry: Option<Entry>, fill: Option<Version>)

  class CachedObject {
    const after: int
    const etagOf: seq<byte> -> ETag
    var backend: Backend
    var entry: Option<Entry>
    /** Fills that have not run yet. */
    var pending: seq<Version>
    var requests: seq<Request>
    /** For every request: the object now cached was stored by a fill since the request looked. */
    ghost var filled: seq<bool>

    /** The entry is for its own bytes: the ETag and size recorded are theirs. ETags determine contents. */
    ghost predicate Inv()
      reads this
    {
      (forall a, b :: etagOf(a) == etagOf(b) ==> a == b) && True(entry)
    }

    ghost predicate True(e: Option<Entry>) { e.Some? && e.value.data.Some? ==> Labelled(e.value) }

    /** ETag and size are those of the bytes. */
    ghost predicate Labelled(e: Entry) {
      e.data.Some? && e.etag == etagOf(e.data.value) && e.size == |e.data.value|
    }

    /** What a request has found is true to its bytes, and unless a fill came in between it is still what is cached. */
    ghost predicate Tracked(r: Request, overtaken: bool)
      reads this
    {
      match r
      case Looked(found, _) =>
        && (found.Some? ==> Labelled(found.value))
        && (Cached() && !overtaken ==> found.Some? && found.value.data == entry.value.data)
      case Matching(copy, v) =>
        && Labelled(copy) && copy.data == Some(v.data)
        && (Cached() && !overtaken ==> entry.value.data == Some(v.data))
      case Missed(_, _) => Cached() ==> overtaken
      case Counting(_, _) => Cached() ==> overtaken
      case _ => true
    }

    ghost predicate Good()
      reads this
    {
      Inv() && |filled| == |requests| && forall i :: 0 <= i < |requests| ==> Tracked(requests[i], filled[i])
    }

    /** The request is about to write the ETag and size of a version to the entry of other bytes. */
    ghost predicate Mislabels(i: nat)
      reads this
    {
      i < |requests| && WritesOver(requests[i], entry)
    }

    ghost predicate WritesOver(r: Request, e: Option<Entry>) {
      && e.Some? && e.value.data.Some?
      && match r
         case Matching(_, v) => e.value.data != Some(v.data)
         case Counting(v, _) => e.value.data != Some(v.data)
         case _ => false
    }

    constructor (after: int, etagOf: seq<byte> -> ETag, backend: Backend)
      requires forall a, b :: etagOf(a) == etagOf(b) ==> a == b
      ensures Good() && entry == None && pending == [] && requests == []
      ensures this.backend == backend && this.after == after && this.etagOf == etagOf
    {
      this.after, this.etagOf, this.backend, entry, pending := after, etagOf, backend, None, [];
      requests, filled := [], [];
    }

    /**
     * `saveMetadata` without a range: one more hit, ETag and size as given, the other metadata replaced unless only the
     * hit counts; part.1 is not touched. So the entry stays true to its bytes exactly if ETag and size are theirs.
     */
    method SaveMetadata(etag: ETag, attrs: int, size: nat, incHitsOnly: bool)
      modifies this`entry
      ensures entry.Some? && Hits() == old(Hits()) + 1 && entry.value.etag == etag && entry.value.size == size
      ensures entry.value.data == if old(entry).Some? then old(entry).value.data else None
      ensures entry.value.attrs == if !incHitsOnly then attrs else if old(entry).Some? then old(entry).value.attrs else 0
      ensures old(Inv()) ==>
                (Inv() <==> (old(Cached()) ==> var data := old(entry).value.data.value; etag == etagOf(data) && size == |data|))
    {
      var m := if entry.Some? then entry.value else Entry([], 0, 0, 0, None);
      var a := if incHitsOnly then m.attrs else attrs;
      entry := Some(m.(etag := etag, attrs := a, size := size, hits := m.hits + 1));
    }

    /** Put leaves after recording the access, without reading the object. */
    predicate Postponed(e: Option<Entry>, v: Version) {
      if e.None? then after >= 1 else e.value.hits < after && e.value.etag == etagOf(v.data)
    }

    /** Put reads the object to its end. */
    predicate ReadsAll(e: Option<Entry>, v: Version, env: Env) {
      env.usageHigh || (!Postponed(e, v) && env.available && env.writeOk)
    }

    /** The entry it leaves. */
    ghost function AfterPut(e: Option<Entry>, v: Version, env: Env): Option<Entry> {
      if env.usageHigh then e
      else if Postponed(e, v) then Some(Saved(e, etagOf(v.data), v.attrs, |v.data|, false))
      else if !env.available then e
      else if !env.writeOk then None
      else Some(Saved(e, etagOf(v.data), v.attrs, |v.data|, e.Some? && e.value.hits < after).(data := Some(v.data)))
    }

    /** `Put` of a version of the object. */
    method Put(v: Version, env: Env) returns (readAll: bool)
      modifies this`entry
      ensures old(Inv()) ==> Inv()
      ensures readAll == ReadsAll(old(entry), v, env) && entry == AfterPut(old(entry), v, env)
    {
      if env.usageHigh {
        return true;
      }
      var incHitsOnly := false;
      if entry.None? && after >= 1 {
        SaveMetadata(etagOf(v.data), v.attrs, |v.data|, false);
        return false;
      }
      if entry.Some? && entry.value.hits < after {
        if entry.value.etag == etagOf(v.data) {
          SaveMetadata(etagOf(v.data), v.attrs, |v.data|, false);
          return false;
        }
        incHitsOnly := true;
      }
      if !env.available {
        return false;
      }
      if !env.writeOk {
        entry := None;
        return false;
      }
      var m := if entry.Some? then entry.value else Entry([], 0, 0, 0, None);
      entry := Some(m.(data := Some(v.data)));
      SaveMetadata(etagOf(v.data), v.attrs, |v.data|, incHitsOnly);
      return true;
    }

    /** The object itself is cached. */
    predicate Cached()
      reads this
    {
      entry.Some? && entry.value.data.Some?
    }

    function Hits(): nat
      reads this
    {
      if entry.Some? then entry.value.hits else 0
    }

    // ---- the steps of a GET ----

    /** A request comes in. */
    method Begin(env: Env) returns (i: nat)
      modifies this`requests, this`filled
      ensures i == |old(requests)| && requests == old(requests) + [if env.excluded then Direct else Starting]
      ensures filled == old(filled) + [false]
      ensures old(Good()) ==> Good()
    {
      i := |requests|;
      requests, filled := requests + [if env.excluded then Direct else Starting], filled + [false];
    }

    /** `Get` of the cache, under its lock. */
    method LookUp(i: nat)
      requires i < |requests| == |filled| && requests[i] == Starting
      modifies this`requests, this`filled
      ensures requests == old(requests)[i := Looked(if Cached() then entry else None, Hits())]
      ensures filled == old(filled)[i := false]
      ensures old(Good()) ==> Good()
    {
      requests := requests[i := Looked(if Cached() then entry else None, Hits())];
      filled := filled[i := false];
    }

    /** The next phase once the backend has answered. */
    function Judge(found: Option<Entry>, hits: nat, v: Version, env: Env): Request {
      if env.uncacheable then Direct
      else if found.None? then Missed(hits, v)
      else if found.value.etag == etagOf(v.data) then Matching(found.value, v)
      else Stale(hits, v)
    }

    /** The backend is asked for the object's metadata. */
    method Ask(i: nat, env: Env) returns (a: Option<Answer>)
      requires i < |requests| && requests[i].Looked? && (requests[i].found.Some? ==> requests[i].found.value.data.Some?)
      modifies this`requests
      ensures var found, hits := old(requests[i]).found, old(requests[i]).hits;
              match backend
              case Down =>
                && a == Some(Answer(if found.Some? then Bytes(found.value.data.value) else Failed, backend))
                && requests == old(requests)[i := Done]
              case Up(None) =>
                && a == (if found.Some? then None else Some(Answer(NotFound, backend)))
                && requests == old(requests)[i := if found.Some? then Gone else Done]
              case Up(Some(v)) => a == None && requests == old(requests)[i := Judge(found, hits, v, env)]
      ensures old(Good()) ==> Good() && (a.Some? ==> a.value.Right())
    {
      var found, hits := requests[i].found, requests[i].hits;
      match backend {
        case Down =>
          a := Some(Answer(if found.Some? then Bytes(found.value.data.value) else Failed, backend));
          requests := requests[i := Done];
        case Up(None) =>
          a := if found.Some? then None else Some(Answer(NotFound, backend));
          requests := requests[i := if found.Some? then Gone else Done];
        case Up(Some(v)) =>
          a := None;
          requests := requests[i := Judge(found, hits, v, env)];
      }
    }

    /** The entry is removed, under its lock. */
    method Remove()
      modifies this`entry, this`filled
      ensures entry == None && |filled| == |old(filled)| && forall i :: 0 <= i < |filled| ==> !filled[i]
      ensures old(Good()) ==> Good()
    {
      entry := None;
      filled := seq(|filled|, _ => false);
    }

    /** `Delete` of a copy that the backend no longer has, or has another version of. */
    method Delete(i: nat) returns (a: Option<Answer>)
      requires i < |requests| && (requests[i].Gone? || requests[i].Stale?)
      modifies this`entry, this`filled, this`requests
      ensures entry == None && |filled| == |old(filled)| && forall j :: 0 <= j < |filled| ==> !filled[j]
      ensures var r := old(requests[i]);
              requests == old(requests)[i := if r.Gone? then Done else Missed(r.hits, r.version)]
              && a == if r.Gone? then Some(Answer(NotFound, Up(None))) else None
      ensures old(Good()) ==> Good()
    {
      Remove();
      var r := requests[i];
      requests := requests[i := if r.Gone? then Done else Missed(r.hits, r.version)];
      return if r.Gone? then Some(Answer(NotFound, Up(None))) else None;
    }

    /** `updateMetadataIfChanged`, and the copy found is handed out. */
    method Update(i: nat) returns (a: Answer)
      requires i < |requests| && requests[i].Matching? && requests[i].copy.data.Some?
      modifies this`entry, this`requests
      ensures var r := old(requests[i]);
              && a == Answer(Bytes(r.copy.data.value), Up(Some(r.version))) && requests == old(requests)[i := Done]
              && entry == Some(if r.copy.attrs != r.version.attrs
                               then Saved(old(entry), etagOf(r.version.data), r.version.attrs, |r.version.data|, false)
                               else Saved(old(entry), r.copy.etag, 0, r.copy.size, true))
      ensures old(Good()) ==> (if old(Mislabels(i)) then !Inv() else Good()) && a.Right()
    {
      var copy, v := requests[i].copy, requests[i].version;
      a := Answer(Bytes(copy.data.value), Up(Some(v)));
      requests := requests[i := Done];
      if copy.attrs != v.attrs {
        SaveMetadata(etagOf(v.data), v.attrs, |v.data|, false);
      } else {
        SaveMetadata(copy.etag, 0, copy.size, true);
      }
    }

    /** The object is opened in the backend; with enough hits the reader is tied to a fill of the cache. */
    method Open(i: nat, env: Env) returns (a: Option<Answer>)
      requires i < |requests| && requests[i].Missed?
      modifies this`pending, this`requests
      ensures match backend
              case Down => a == Some(Answer(Failed, backend)) && requests == old(requests)[i := Done] && pending == old(pending)
              case Up(None) => a == Some(Answer(NotFound, backend)) && requests == old(requests)[i := Done] && pending == old(pending)
              case Up(Some(w)) =>
                var r := old(requests[i]);
                if env.openFails then
                  a == Some(Answer(Failed, backend)) && requests == old(requests)[i := Done] && pending == old(pending)
                else if r.hits < after then
                  a == None && requests == old(requests)[i := Counting(r.version, w)] && pending == old(pending)
                else if !env.available then
                  a == Some(Answer(Bytes(w.data), backend)) && requests == old(requests)[i := Done] && pending == old(pending)
                else
                  a == Some(Answer(Teed, backend)) && requests == old(requests)[i := Done] && pending == old(pending) + [w]
      ensures old(Good()) ==> Good() && (a.Some? ==> a.value.Right())
    {
      var r := requests[i];
      a := Some(Answer(FromBackend(env), backend));
      requests := requests[i := Done];
      if a.value.reply.Bytes? {
        var w := backend.version.value;
        if r.hits < after {
          requests := requests[i := Counting(r.version, w)];
          a := None;
        } else if env.available {
          pending := pending + [w];
          a := Some(Answer(Teed, backend));
        }
      }
    }

    /** `incHitsToMeta`, and the object is handed out from the backend. */
    method CountHit(i: nat) returns (a: Answer)
      requires i < |requests| && requests[i].Counting?
      modifies this`entry, this`requests
      ensures var r := old(requests[i]);
              && a == Answer(Bytes(r.current.data), Up(Some(r.current))) && requests == old(requests)[i := Done]
              && entry == Some(Saved(old(entry), etagOf(r.version.data), 0, |r.version.data|, true))
      ensures old(Good()) ==> if old(Mislabels(i)) then !Inv() else Good()
    {
      var v := requests[i].version;
      a := Answer(Bytes(requests[i].current.data), Up(Some(requests[i].current)));
      requests := requests[i := Done];
      SaveMetadata(etagOf(v.data), 0, |v.data|, true);
    }

    function FromBackend(env: Env): Reply
      reads this
    {
      match backend
      case Down => Failed
      case Up(None) => NotFound
      case Up(Some(v)) => if env.openFails then Failed else Bytes(v.data)
    }

    // What comes of a request that nothing interferes with, from each of its phases.

    ghost function AfterMiss(hits: nat, v: Version, entry: Option<Entry>, backend: Backend, env: Env): Outcome {
      match backend
      case Down => Outcome(Failed, entry, None)
      case Up(None) => Outcome(NotFound, entry, None)
      case Up(Some(w)) =>
        if env.openFails then Outcome(Failed, entry, None)
        else if hits < after then Outcome(Bytes(w.data), Some(Saved(entry, etagOf(v.data), 0, |v.data|, true)), None)
        else if env.available then Outcome(Teed, entry, Some(w))
        else Outcome(Bytes(w.data), entry, None)
    }

    ghost function AfterMatch(copy: Entry, v: Version, entry: Option<Entry>): Outcome {
      Outcome(if copy.data.Some? then Bytes(copy.data.value) else Failed,
              Some(if copy.attrs != v.attrs then Saved(entry, etagOf(v.data), v.attrs, |v.data|, false)
                   else Saved(entry, copy.etag, 0, copy.size, true)),
              None)
    }

    ghost function AfterLook(found: Option<Entry>, hits: nat, entry: Option<Entry>, backend: Backend, env: Env): Outcome {
      match backend
      case Down => Outcome(if found.Some? && found.value.data.Some? then Bytes(found.value.data.value) else Failed, entry, None)
      case Up(None) => Outcome(NotFound, if found.Some? then None else entry, None)
      case Up(Some(v)) =>
        if env.uncacheable then Outcome(if env.openFails then Failed else Bytes(v.data), entry, None)
        else if found.None? then AfterMiss(hits, v, entry, backend, env)
        else if found.value.etag == etagOf(v.data) then AfterMatch(found.value, v, entry)
        else AfterMiss(hits, v, None, backend, env)
    }

    ghost function Settle(r: Request, entry: Option<Entry>, backend: Backend, env: Env): Outcome {
      match r
      case Starting =>
        AfterLook(if entry.Some? && entry.value.data.Some? then entry else None,
                  if entry.Some? then entry.value.hits else 0, entry, backend, env)
      case Direct =>
        (match backend
         case Down => Outcome(Failed, entry, None)
         case Up(None) => Outcome(NotFound, entry, None)
         case Up(Some(v)) => Outcome(if env.openFails then Failed else Bytes(v.data), entry, None))
      case Looked(found, hits) => AfterLook(found, hits, entry, backend, env)
      case Gone => Outcome(NotFound, None, None)
      case Matching(copy, v) => AfterMatch(copy, v, entry)
      case Stale(hits, v) => AfterMiss(hits, v, None, backend, env)
      case Missed(hits, v) => AfterMiss(hits, v, entry, backend, env)
      case Counting(v, w) => Outcome(Bytes(w.data), Some(Saved(entry, etagOf(v.data), 0, |v.data|, true)), None)
      case Done => Outcome(Failed, entry, None)
    }

    /** The steps a request has left, at most. */
    ghost function StepsLeft(r: Request): nat {
      match r
      case Starting => 5 case Looked(_, _) => 4 case Stale(_, _) => 3 case Missed(_, _) => 2
      case Direct => 1 case Gone => 1 case Matching(_, _) => 1 case Counting(_, _) => 1 case Done => 0
    }

    /**
     * A step from r, e and p to r', e' and p': nearer to the end without changing what comes of the request undisturbed,
     * or an answer with just that.
     */
    ghost predicate Nearer(r: Request, e: Option<Entry>, p: seq<Version>, r': Request, e': Option<Entry>, p': seq<Version>,
                           a: Option<Answer>, backend: Backend, env: Env)
    {
      var outcome := Settle(r, e, backend, env);
      && StepsLeft(r') < StepsLeft(r)
      && match a
         case None => r' != Done && Settle(r', e', backend, env) == outcome && p' == p
         case Some(answer) =>
           && r' == Done && answer.reply == outcome.reply && e' == outcome.entry
           && p' == if outcome.fill.Some? then p + [outcome.fill.value] else p
    }

    /** A request that looks has no fill behind it, and nor has any once the entry is deleted. */
    ghost predicate FilledNow(r: Request, i: nat, filled: seq<bool>, filled': seq<bool>) {
      && |filled'| == |filled|
      && forall j :: 0 <= j < |filled| ==> (filled'[j] <==> filled[j] && !(r.Gone? || r.Stale? || (r.Starting? && j == i)))
    }

    /** One step of request i, if it has one left. */
    method Advance(i: nat, env: Env) returns (a: Option<Answer>)
      requires i < |requests| == |filled| && Found(requests[i])
      modifies this`entry, this`filled, this`pending, this`requests
      ensures |requests| == |filled| == |old(requests)| && (forall j :: 0 <= j < |requests| && j != i ==> requests[j] == old(requests)[j])
      ensures Found(requests[i]) && FilledNow(old(requests[i]), i, old(filled), filled)
      ensures if old(requests[i]) == Done then a == None && requests[i] == Done && entry == old(entry) && pending == old(pending)
              else Nearer(old(requests[i]), old(entry), old(pending), requests[i], entry, pending, a, backend, env)
      ensures a.Some? ==> a.value.Reasoned(env.openFails) && a.value.reply != Broken
      ensures old(Good()) ==> (if old(Mislabels(i)) then !Inv() else Good()) && (a.Some? ==> a.value.Right())
    {
      match requests[i] {
        case Done => a := None;
        case Gone => a := Delete(i);
        case Stale(_, _) => a := Delete(i);
        case Matching(_, _) => var b := Update(i); a := Some(b);
        case Counting(_, _) => var b := CountHit(i); a := Some(b);
        case _ => a := AdvanceReading(i, env);
      }
    }

    /** The steps that leave the entry alone. */
    method AdvanceReading(i: nat, env: Env) returns (a: Option<Answer>)
      requires i < |requests| == |filled| && Found(requests[i])
      requires requests[i].Starting? || requests[i].Direct? || requests[i].Looked? || requests[i].Missed?
      modifies this`filled, this`pending, this`requests
      ensures |requests| == |filled| == |old(requests)| && (forall j :: 0 <= j < |requests| && j != i ==> requests[j] == old(requests)[j])
      ensures Found(requests[i]) && FilledNow(old(requests[i]), i, old(filled), filled)
      ensures Nearer(old(requests[i]), entry, old(pending), requests[i], entry, pending, a, backend, env)
      ensures a.Some? ==> a.value.Reasoned(env.openFails) && a.value.reply != Broken
      ensures old(Good()) ==> Good() && (a.Some? ==> a.value.Right())
    {
      a := None;
      match requests[i] {
        case Starting => LookUp(i);
        case Direct =>
          a := Some(Answer(FromBackend(env), backend));
          requests := requests[i := Done];
        case Looked(_, _) => a := Ask(i, env);
        case Missed(_, _) => a := Open(i, env);
      }
    }

    /** What a request has found has bytes. */
    static predicate Found(r: Request) {
      match r
      case Looked(found, _) => found.Some? ==> found.value.data.Some?
      case Matching(copy, _) => copy.data.Some?
      case _ => true
    }

    /** Only a fill since the request looked can bring it to that. */
    lemma OvertakenByFill(i: nat)
      requires Good() && Mislabels(i)
      ensures filled[i]
    {
      assert Tracked(requests[i], filled[i]);
    }

    /**
     * A fill runs, and its client reads through the tee: every byte read from the backend is first written to the
     * fill's pipe, so a fill that ends without reading breaks the client off, unless there is no byte to write.
     */
    method Fill(i: nat, env: Env) returns (r: Reply)
      requires i < |pending|
      modifies this`entry, this`pending, this`filled
      ensures old(Good()) ==> Good()
      ensures pending == old(pending[..i] + pending[i + 1..]) && |filled| == |old(filled)|
      ensures ReadsAll(old(entry), old(pending[i]), env) && !env.usageHigh ==>
                Cached() && entry.value.data == Some(old(pending[i]).data) && Hits() == old(Hits()) + 1
      ensures entry == AfterPut(old(entry), old(pending[i]), env)
      ensures var stored := ReadsAll(old(entry), old(pending[i]), env) && !env.usageHigh;
              forall j :: 0 <= j < |filled| ==> (filled[j] <==> entry.Some? && (stored || old(filled[j])))
      ensures var v := old(pending[i]);
              r == if v.data == [] || ReadsAll(old(entry), v, env) then Bytes(v.data) else Broken
    {
      var v := pending[i];
      pending := pending[..i] + pending[i + 1..];
      ghost var before := entry;
      var readAll := Put(v, env);
      if entry.None? {
        filled := seq(|filled|, _ => false);
      } else if readAll && !env.usageHigh {
        filled := seq(|filled|, _ => true);
      }
      return if v.data == [] || readAll then Bytes(v.data) else Broken;
    }

    // ---- a GET that nothing interferes with ----

    /**
     * `GetObjectNInfo` up to its return, its steps one after the other. With the backend up, the client is answered with
     * the current version or not at all; what comes from the cache is the current version.
     */
    method GetObjectNInfo(env: Env) returns (r: Reply)
      requires Good()
      modifies this`entry, this`pending, this`requests, this`filled
      ensures Good()
      ensures backend.Up? && backend.version.None? ==>
                r == NotFound && entry == if old(Cached()) && !env.excluded then None else old(entry)
      ensures backend.Up? && backend.version.Some? ==>
                var v := backend.version.value;
                var matches := old(Cached()) && old(entry).value.etag == etagOf(v.data);
                if env.excluded || env.uncacheable then
                  r == (if env.openFails then Failed else Bytes(v.data)) && entry == old(entry)
                else if matches then
                  r == Bytes(v.data) && entry == Some(old(entry).value.(attrs := v.attrs, hits := old(entry).value.hits + 1))
                else
                  var kept := if old(Cached()) then None else old(entry);
                  if env.openFails then r == Failed && entry == kept
                  else if old(Hits()) < after then
                    r == Bytes(v.data) && entry == Some(Saved(kept, etagOf(v.data), v.attrs, |v.data|, true))
                  else r == (if env.available then Teed else Bytes(v.data)) && entry == kept
      ensures backend == Down ==>
                r == (if !env.excluded && old(Cached()) then Bytes(old(entry).value.data.value) else Failed) && entry == old(entry)
      ensures pending == if r == Teed then old(pending) + [backend.version.value] else old(pending)
    {
      var i := Begin(env);
      ghost var outcome := Settle(requests[i], entry, backend, env);
      ghost var was := pending;
      var a: Option<Answer> := None;
      while a.None?
        invariant i < |requests| == |filled| && Found(requests[i]) && !filled[i] && Good()
        invariant a.None? ==> requests[i] != Done && Settle(requests[i], entry, backend, env) == outcome && pending == was
        invariant a.Some? ==> a.value.reply == outcome.reply && entry == outcome.entry
                              && pending == if outcome.fill.Some? then was + [outcome.fill.value] else was
        decreases StepsLeft(requests[i])
      {
        if Mislabels(i) { OvertakenByFill(i); }
        a := Advance(i, env);
      }
      return a.value.reply;
    }

    /**
     * A GET with nothing happening between its steps and its fill, under disk conditions that do not change, of an
     * object that exists in a backend that is up and reads without failure. The client gets the current version
     * except in exactly one case: the object is not empty, a stale copy had been cached and accessed at least `after`
     * times, after >= 1, and there is room to cache the new version.
     */
    method Get(env: Env) returns (r: Reply)
      requires Good() && backend.Up? && backend.version.Some? && !env.openFails && env.writeOk
      modifies this`entry, this`pending, this`requests, this`filled
      ensures Good() && pending == old(pending)
      ensures r == if old(BreaksOff(env)) then Broken else Bytes(backend.version.value.data)
      ensures !env.excluded && !env.uncacheable && !old(Cached()) && old(Hits()) < after ==> !Cached() && Hits() == old(Hits()) + 1
      ensures !env.excluded && !env.uncacheable && !old(Cached()) && old(Hits()) >= after && env.available && !env.usageHigh
              && old(entry).Some? ==>
                Cached() && entry.value.data == Some(backend.version.value.data) && Hits() == old(Hits()) + 1
    {
      ghost var before := pending;
      r := GetObjectNInfo(env);
      if r == Teed {
        r := Fill(|pending| - 1, env);
        assert pending == before;
      }
    }

    predicate BreaksOff(env: Env)
      requires backend.Up? && backend.version.Some?
      reads this
    {
      var v := backend.version.value;
      && v.data != [] && !env.excluded && !env.uncacheable && env.available && !env.usageHigh
      && Cached() && entry.value.etag != etagOf(v.data) && Hits() >= after >= 1
    }
  }

  // ---- runs ----

  datatype Step = Change(backend: Backend) | Begin(env: Env) | Advance(i: nat, env: Env) | Fill(i: nat, env: Env) | Evict

  predicate OpenFails(step: Step) { step.Advance? && step.env.openFails }

  /** The state of an object as a value. */
  datatype View = View(backend: Backend, entry: Option<Entry>, pending: seq<Version>, requests: seq<Request>, filled: seq<bool>)

  ghost function Viewed(c: CachedObject): View
    reads c
  {
    View(c.backend, c.entry, c.pending, c.requests, c.filled)
  }

  /** What a step does, and the answer given in it. Steps of requests or fills that do not exist do nothing. */
  ghost predicate Follows(c: CachedObject, s: View, step: Step, s': View, a: Option<Answer>) {
    match step
    case Change(b) => a == None && s' == s.(backend := b)
    case Evict =>
      && a == None && s' == s.(entry := None, filled := s'.filled)
      && |s'.filled| == |s.filled| && forall j :: 0 <= j < |s'.filled| ==> !s'.filled[j]
    case Begin(env) =>
      a == None && s' == s.(requests := s.requests + [if env.excluded then Direct else Starting], filled := s.filled + [false])
    case Advance(i, env) =>
      if i < |s.requests| && s.requests[i] != Done then Advanced(c, s, i, env, s', a) else a == None && s' == s
    case Fill(i, env) =>
      if i < |s.pending| then Filled(c, s, i, env, s', a) else a == None && s' == s
  }

  ghost predicate Advanced(c: CachedObject, s: View, i: nat, env: Env, s': View, a: Option<Answer>)
    requires i < |s.requests|
  {
    && s'.backend == s.backend && |s'.requests| == |s.requests| && s'.requests == s.requests[i := s'.requests[i]]
    && c.FilledNow(s.requests[i], i, s.filled, s'.filled)
    && c.Nearer(s.requests[i], s.entry, s.pending, s'.requests[i], s'.entry, s'.pending, a, s.backend, env)
  }

  ghost predicate Filled(c: CachedObject, s: View, i: nat, env: Env, s': View, a: Option<Answer>)
    requires i < |s.pending|
  {
    var v := s.pending[i];
    var readAll := c.ReadsAll(s.entry, v, env);
    && s'.backend == s.backend && s'.requests == s.requests && s'.pending == s.pending[..i] + s.pending[i + 1..]
    && s'.entry == c.AfterPut(s.entry, v, env) && |s'.filled| == |s.filled|
    && (forall j :: 0 <= j < |s.filled| ==>
          (s'.filled[j] <==> s'.entry.Some? && ((readAll && !env.usageHigh) || s.filled[j])))
    && a == Some(Answer(if v.data == [] || readAll then Bytes(v.data) else Broken, Up(Some(v))))
  }

  /** A request writes its metadata over those of another version, which a fill has cached since the request looked. */
  ghost predicate Overtaken(c: CachedObject, s: View, step: Step) {
    && step.Advance? && step.i < |s.requests| == |s.filled|
    && c.WritesOver(s.requests[step.i], s.entry) && s.filled[step.i]
  }

  /** The shape of a state, whatever is true of its entry. */
  ghost predicate Shaped(c: CachedObject)
    reads c
  {
    |c.requests| == |c.filled| && forall i :: 0 <= i < |c.requests| ==> CachedObject.Found(c.requests[i])
  }

  /** One step. */
  method Take(c: CachedObject, step: Step) returns (a: Option<Answer>)
    requires Shaped(c)
    modifies c
    ensures Shaped(c) && Follows(c, old(Viewed(c)), step, Viewed(c), a)
    ensures a.Some? ==> a.value.Reasoned(OpenFails(step))
    ensures old(c.Good()) ==>
              && (if Overtaken(c, old(Viewed(c)), step) then !c.Inv() else c.Good())
              && (a.Some? ==> a.value.Right())
  {
    a := None;
    match step {
      case Change(b) => c.backend := b;
      case Evict => c.Remove();
      case Begin(env) => var _ := c.Begin(env);
      case Advance(i, env) =>
        if i < |c.requests| {
          if c.Good() && c.Mislabels(i) { c.OvertakenByFill(i); }
          a := c.Advance(i, env);
        }
      case Fill(i, env) =>
        if i < |c.pending| {
          var v := c.pending[i];
          var r := c.Fill(i, env);
          a := Some(Answer(r, Up(Some(v))));
        }
    }
  }

  /** The states a run goes through, and the answers given in its steps. */
  ghost predicate Runs(c: CachedObject, trace: seq<View>, steps: seq<Step>, answers: seq<Option<Answer>>) {
    && |trace| == |steps| + 1 && |answers| == |steps|
    && forall k :: 0 <= k < |steps| ==> Follows(c, trace[k], steps[k], trace[k + 1], answers[k])
  }

  ghost predicate NeverOvertaken(c: CachedObject, trace: seq<View>, steps: seq<Step>)
    requires |trace| == |steps| + 1
  {
    forall k :: 0 <= k < |steps| ==> !Overtaken(c, trace[k], steps[k])
  }

  /** The entry is true to its bytes in every state. */
  ghost predicate AlwaysTrue(c: CachedObject, trace: seq<View>) { forall k :: 0 <= k < |trace| ==> c.True(trace[k].entry) }

  ghost predicate AllRight(answers: seq<Option<Answer>>) {
    forall k :: 0 <= k < |answers| && answers[k].Some? ==> answers[k].value.Right()
  }

  ghost predicate AllReasoned(steps: seq<Step>, answers: seq<Option<Answer>>)
    requires |answers| == |steps|
  {
    forall k :: 0 <= k < |answers| && answers[k].Some? ==> answers[k].value.Reasoned(OpenFails(steps[k]))
  }

  lemma RunsOn(c: CachedObject, trace: seq<View>, steps: seq<Step>, answers: seq<Option<Answer>>, step: Step, s: View, a: Option<Answer>)
    requires Runs(c, trace, steps, answers) && Follows(c, trace[|steps|], step, s, a)
    ensures Runs(c, trace + [s], steps + [step], answers + [a])
  {
    var t, ss, aa := trace + [s], steps + [step], answers + [a];
    forall k | 0 <= k < |ss| ensures Follows(c, t[k], ss[k], t[k + 1], aa[k]) {
      if k < |steps| { assert t[k] == trace[k] && t[k + 1] == trace[k + 1]; }
    }
  }

  lemma OvertakenOn(c: CachedObject, trace: seq<View>, steps: seq<Step>, step: Step, s: View)
    requires |trace| == |steps| + 1
    ensures NeverOvertaken(c, trace + [s], steps + [step]) <==> NeverOvertaken(c, trace, steps) && !Overtaken(c, trace[|steps|], step)
    ensures AlwaysTrue(c, trace + [s]) <==> AlwaysTrue(c, trace) && c.True(s.entry)
  {
    var t, ss := trace + [s], steps + [step];
    assert t[|steps|] == trace[|steps|] && ss[|steps|] == step && t[|trace|] == s;
    forall k | 0 <= k < |steps| ensures Overtaken(c, t[k], ss[k]) <==> Overtaken(c, trace[k], steps[k]) { }
    forall k | 0 <= k < |trace| ensures t[k] == trace[k] { }
  }

  lemma AnswersOn(steps: seq<Step>, answers: seq<Option<Answer>>, step: Step, a: Option<Answer>)
    requires |answers| == |steps| && AllReasoned(steps, answers) && (a.Some? ==> a.value.Reasoned(OpenFails(step)))
    ensures AllReasoned(steps + [step], answers + [a])
    ensures AllRight(answers) && (a.Some? ==> a.value.Right()) ==> AllRight(answers + [a])
  {
  }

  /**
   * Over every interleaving of the steps of any number of requests with fills in any order, evictions and changes or
   * failures of the backend: the entry is true to its bytes in every state exactly if no request writes its metadata after
   * a fill of another version has landed since the request looked. Then every answer given while the backend is up is
   * right. There is a reason for every answer without bytes: the backend is down, has no such object or fails to open it,
   * or the reader is tied to a fill.
   */
  method Run(c: CachedObject, steps: seq<Step>) returns (answers: seq<Option<Answer>>, ghost trace: seq<View>)
    requires c.Good() && c.requests == []
    modifies c
    ensures Runs(c, trace, steps, answers) && trace[0] == old(Viewed(c)) && trace[|steps|] == Viewed(c)
    ensures AlwaysTrue(c, trace) <==> NeverOvertaken(c, trace, steps)
    ensures NeverOvertaken(c, trace, steps) ==> c.Good() && AllRight(answers)
    ensures AllReasoned(steps, answers)
  {
    answers, trace := [], [Viewed(c)];
    var k := 0;
    while k < |steps|
      invariant k <= |steps| && Shaped(c)
      invariant Runs(c, trace, steps[..k], answers) && trace[0] == old(Viewed(c)) && trace[k] == Viewed(c)
      invariant AlwaysTrue(c, trace) <==> NeverOvertaken(c, trace, steps[..k])
      invariant NeverOvertaken(c, trace, steps[..k]) ==> c.Good() && AllRight(answers)
      invariant AllReasoned(steps[..k], answers)
    {
      var a := Take(c, steps[k]);
      assert steps[..k + 1] == steps[..k] + [steps[k]];
      RunsOn(c, trace, steps[..k], answers, steps[k], Viewed(c), a);
      OvertakenOn(c, trace, steps[..k], steps[k], Viewed(c));
      AnswersOn(steps[..k], answers, steps[k], a);
      answers, trace := answers + [a], trace + [Viewed(c)];
      k := k + 1;
    }
    assert steps[..k] == steps;
  }

  /**
   * The case that breaks off is reached: cached after the second access, the object is overwritten in the backend,
   * and the next GET ends with an error though backend and cache work.
   */
  method BreaksOffAfterOverwrite() returns (r: Reply)
    ensures r == Broken
  {
    var env := Env(false, false, false, false, true, true);
    var c := new CachedObject(1, data => data, Up(Some(Version([1], 0))));
    r := c.Get(env);
    assert r == Bytes([1]);
    r := c.Get(env);
    assert r == Bytes([1]);
    c.backend := Up(Some(Version([2], 0)));
    r := c.Get(env);
  }

  /**
   * A wrong answer is reached as well, with after = 2: the fill of version [1] lands between the look-up of a request and
   * its hit for version [2], and the next GET is given [1] under the ETag of [2], though the backend is up and has [2].
   */
  method WrongAfterOvertaking() returns (a: Option<Answer>, ghost wasTrue: bool)
    ensures wasTrue && a == Some(Answer(Bytes([1]), Up(Some(Version([2], 0))))) && !a.value.Right()
  {
    var env := Env(false, false, false, false, true, true);
    var c := new CachedObject(2, data => data, Up(Some(Version([1], 0))));
    PendingAfterEviction(c, env);
    c.backend := Up(Some(Version([2], 0)));
    var i := AboutToCount(c, env);
    var _ := c.Fill(0, env);
    wasTrue := c.Inv();
    var _ := c.CountHit(i);
    a := HandedOut(c, env);
  }

  /** Two GETs count hits, a third starts a fill of [1] that stays pending, and the entry is evicted. */
  method PendingAfterEviction(c: CachedObject, env: Env)
    requires c.Good() && c.after == 2 && c.entry == None && c.pending == [] && c.backend == Up(Some(Version([1], 0)))
    requires env == Env(false, false, false, false, true, true)
    modifies c`entry, c`pending, c`requests, c`filled
    ensures c.Good() && c.pending == [Version([1], 0)] && c.entry == None
  {
    var _ := c.GetObjectNInfo(env);
    assert !c.Cached() && c.Hits() == 1;
    var _ := c.GetObjectNInfo(env);
    assert !c.Cached() && c.Hits() == 2;
    var _ := c.GetObjectNInfo(env);
    c.Remove();
  }

  /** One GET counts a hit for the version in the backend, and another has looked, asked for and opened it. */
  method AboutToCount(c: CachedObject, env: Env) returns (i: nat)
    requires c.Good() && c.after == 2 && c.entry == None && c.backend == Up(Some(Version([2], 0)))
    requires env == Env(false, false, false, false, true, true)
    modifies c`entry, c`pending, c`requests, c`filled
    ensures c.Good() && c.pending == old(c.pending) && c.entry == Some(Entry(c.etagOf([2]), 0, 1, 1, None))
    ensures i < |c.requests| && c.requests[i] == Counting(Version([2], 0), Version([2], 0))
  {
    var _ := c.GetObjectNInfo(env);
    i := c.Begin(env);
    c.LookUp(i);
    var _ := c.Ask(i, env);
    var _ := c.Open(i, env);
  }

  /** A GET of a cached object whose ETag is the backend's. */
  method HandedOut(c: CachedObject, env: Env) returns (a: Option<Answer>)
    requires |c.requests| == |c.filled| && c.Cached() && c.backend.Up? && c.backend.version.Some?
    requires c.entry.value.etag == c.etagOf(c.backend.version.value.data) && !env.excluded && !env.uncacheable
    modifies c
    ensures a == Some(Answer(Bytes(old(c.entry).value.data.value), old(c.backend)))
  {
    var i := c.Begin(env);
    c.LookUp(i);
    a := c.Ask(i, env);
    var b := c.Update(i);
    a := Some(b);
  }
}
