/** Erasure encoding of a stream to many writers under a write quorum. */
module ErasureEncode {
  import opened Bytes
  import opened ErasureCode
  import opened Geometry
  import opened BitrotStream
  import opened Streams

  datatype Error = Nil | DiskNotFound | WriteFailed | WriteQuorum | SourceFailed | LessData | Other(code: int)

  // ---- quorum errors ----

  predicate QuorumLost(err: Error) { err == WriteFailed || err == WriteQuorum }

  /** `reduceErrs`: a most frequent error value that is not ignored; among equals no error wins, else map order decides. */
  method ReduceErrs(errs: seq<Error>, ignored: set<Error>) returns (max: nat, maxErr: Error)
    ensures forall e :: e !in ignored ==> Count(errs, e) <= max
    ensures max > 0 ==> maxErr !in ignored && Count(errs, maxErr) == max
    ensures max == 0 ==> maxErr == Nil
    ensures Nil !in ignored && Count(errs, Nil) == max ==> maxErr == Nil
  {
    var counts: map<Error, nat> := map[];
    for i := 0 to |errs|
      invariant forall e :: e in counts <==> e !in ignored && Count(errs[..i], e) > 0
      invariant forall e :: e in counts ==> counts[e] == Count(errs[..i], e)
    {
      assert errs[..i + 1] == errs[..i] + [errs[i]];
      forall e { CountSnoc(errs[..i], errs[i], e); }
      if errs[i] !in ignored {
        counts := counts[errs[i] := (if errs[i] in counts then counts[errs[i]] else 0) + 1];
      }
    }
    assert errs[..|errs|] == errs;
    max, maxErr := 0, Nil;
    var todo := counts.Keys;
    while todo != {}
      invariant todo <= counts.Keys
      invariant forall e :: e in counts && e !in todo ==> counts[e] <= max
      invariant max > 0 ==> maxErr in counts && counts[maxErr] == max
      invariant max == 0 ==> maxErr == Nil
      invariant Nil in counts && Nil !in todo && counts[Nil] == max ==> maxErr == Nil
      decreases todo
    {
      var e :| e in todo;
      if max < counts[e] {
        max, maxErr := counts[e], e;
      } else if max == counts[e] && e == Nil {
        maxErr := e;
      }
      todo := todo - {e};
    }
  }

  /** `reduceWriteQuorumErrs` reports an error whenever fewer than quorum writers succeeded. */
  method ReduceWriteQuorumErrs(errs: seq<Error>, ignored: set<Error>, quorum: int) returns (e: Error)
    ensures Count(errs, Nil) < quorum ==> e != Nil
    ensures if exists x :: x !in ignored && Count(errs, x) >= quorum > 0 then e !in ignored && Count(errs, e) >= quorum
            else quorum > 0 ==> e == WriteQuorum
  {
    var max, maxErr := ReduceErrs(errs, ignored);
    if max >= quorum {
      return maxErr;
    }
    return WriteQuorum;
  }

  // ---- the parallel writer ----

  /** An entry of the writers slice; null is a missing or failed disk. */
  type Slot = StreamingBitrotWriter?

  function CountLive(ws: seq<Slot>): nat {
    if ws == [] then 0 else (if ws[0] != null then 1 else 0) + CountLive(ws[1..])
  }

  ghost predicate Distinct(ws: seq<Slot>) {
    forall i, j :: 0 <= i < j < |ws| && ws[i] != null ==> ws[i] != ws[j]
  }

  ghost function Objects(ws: seq<Slot>): set<StreamingBitrotWriter> {
    set i | 0 <= i < |ws| && ws[i] != null :: ws[i]
  }

  lemma {:induction false} CountsAgree(errs: seq<Error>, ws: seq<Slot>)
    requires |errs| == |ws| && forall i :: 0 <= i < |ws| ==> (errs[i] == Nil <==> ws[i] != null)
    ensures Count(errs, Nil) == CountLive(ws)
  {
    if ws != [] { CountsAgree(errs[1..], ws[1..]); }
  }

  /** What writer slots report: a missing disk, a write that failed, or success. */
  ghost predicate Reports(err: Error, was: Slot, now: Slot) {
    err == if was == null then DiskNotFound else if now == null then WriteFailed else Nil
  }

  lemma {:induction false} CountsFailed(errs: seq<Error>, was: seq<Slot>, now: seq<Slot>)
    requires |errs| == |was| == |now| && forall i :: 0 <= i < |was| ==> Reports(errs[i], was[i], now[i]) && (was[i] == null ==> now[i] == null)
    ensures Count(errs, WriteFailed) == CountLive(was) - CountLive(now)
    ensures forall x :: Count(errs, x) > 0 ==> x in {Nil, DiskNotFound, WriteFailed}
  {
    if was != [] { CountsFailed(errs[1..], was[1..], now[1..]); }
  }

  method NilCount(errs: seq<Error>) returns (n: nat)
    ensures n == Count(errs, Nil)
  {
    n := 0;
    for i := 0 to |errs|
      invariant n == Count(errs[..i], Nil)
    {
      assert errs[..i + 1] == errs[..i] + [errs[i]];
      CountSnoc(errs[..i], errs[i], Nil);
      if errs[i] == Nil { n := n + 1; }
    }
    assert errs[..|errs|] == errs;
  }

  /** What a disk's writer has stored and in how many writes, whether it failed, and how often it was called after that. */
  datatype Status = Status(file: seq<byte>, count: nat, broken: bool, late: nat)

  ghost function StatusOf(w: Slot): Status
    reads w
  {
    if w == null then Status([], 0, false, 0) else Status(w.file, w.count, w.broken, w.lateWrites)
  }

  /** The disk takes a write of n bytes as its k-th. */
  predicate Accepts(w: StreamingBitrotWriter, k: nat, n: nat) {
    n == 0 || w.breaks(k).None? || w.breaks(k).value >= w.h.size + n
  }

  /** Writer w, in state `was` before, was sent shard p and is now `now` in the writers slice. */
  ghost predicate SentTo(w: Slot, was: Status, now: Slot, p: Shard)
    reads w
  {
    SentAs(w, was, now, StatusOf(w), p)
  }

  /** The same of a writer now in state `st`. */
  ghost predicate SentAs(w: Slot, was: Status, now: Slot, st: Status, p: Shard) {
    if w == null then now == null else
    && now == (if Accepts(w, was.count, |p|) then w else null)
    && was.file <= st.file <= was.file + Frame(w.h, p)
    && (now == w ==> st.file == was.file + Frame(w.h, p) && st.broken == was.broken)
    && st.late == was.late + (if was.broken then 1 else 0)
    && st.count == was.count + if p == [] then 0 else 1
  }

  ghost function Statuses(ws: seq<Slot>): (sts: seq<Status>)
    reads Objects(ws)
    ensures |sts| == |ws|
  {
    seq(|ws|, i requires 0 <= i < |ws| reads Objects(ws) => StatusOf(ws[i]))
  }

  class ParallelWriter {
    const writers: array<Slot>
    const writeQuorum: int
    const errs: array<Error>

    ghost predicate Ready()
      reads writers
    {
      errs.Length == writers.Length && Distinct(writers[..])
    }

    constructor (writers: array<Slot>, quorum: int)
      ensures this.writers == writers && writeQuorum == quorum
      ensures fresh(errs) && errs.Length == writers.Length
    {
      this.writers, writeQuorum := writers, quorum;
      errs := new Error[writers.Length](_ => Nil);
    }

    /** Sends shard i to writer i; a writer that fails is dropped, and is never called again. */
    method Write(blocks: seq<Shard>) returns (err: Error)
      requires Ready() && |blocks| == writers.Length
      requires forall i :: 0 <= i < writers.Length && writers[i] != null ==> writers[i].h.Valid()
      modifies writers, errs, Objects(writers[..])
      ensures Ready()
      ensures forall i :: 0 <= i < writers.Length ==>
                SentTo(old(writers[i]), old(StatusOf(writers[i])), writers[i], blocks[i])
      ensures err == Nil <==> CountLive(writers[..]) >= writeQuorum
      ensures err != Nil ==>
                err == if CountLive(old(writers[..])) - CountLive(writers[..]) >= writeQuorum then WriteFailed else WriteQuorum
    {
      ghost var was := writers[..];
      SendAll(blocks);
      CountsAgree(errs[..], writers[..]);
      CountsFailed(errs[..], was, writers[..]);
      var nilCount := NilCount(errs[..]);
      if nilCount >= writeQuorum {
        return Nil;
      }
      err := ReduceWriteQuorumErrs(errs[..], {DiskNotFound}, writeQuorum);
    }

    /** One goroutine: write shard p to writer i, and drop the writer when that fails. */
    method SendOne(i: nat, p: Shard)
      requires i < writers.Length == errs.Length
      requires writers[i] != null ==> writers[i].h.Valid()
      modifies writers, errs, Objects([writers[i]])
      ensures SentTo(old(writers[i]), old(StatusOf(writers[i])), writers[i], p)
      ensures writers[..] == old(writers[..])[i := writers[i]] && writers[i] in {null, old(writers[i])}
      ensures errs[..] == old(errs[..])[i := errs[i]] && Reports(errs[i], old(writers[i]), writers[i])
    {
      var w := writers[i];
      if w == null {
        errs[i] := DiskNotFound;
        return;
      }
      assert [w][0] in Objects([w]);
      var ok := w.Write(p);
      errs[i] := if ok then Nil else WriteFailed;
      if !ok {
        writers[i] := null;
      }
    }

    method SendAll(blocks: seq<Shard>)
      requires Ready() && |blocks| == writers.Length
      requires forall i :: 0 <= i < writers.Length && writers[i] != null ==> writers[i].h.Valid()
      modifies writers, errs, Objects(writers[..])
      ensures Ready()
      ensures forall i :: 0 <= i < writers.Length ==>
                SentTo(old(writers[i]), old(StatusOf(writers[i])), writers[i], blocks[i])
      ensures forall i :: 0 <= i < writers.Length ==> Reports(errs[i], old(writers[i]), writers[i])
      ensures forall i :: 0 <= i < writers.Length ==> (old(writers[i]) == null ==> writers[i] == null)
    {
      ghost var ws, was := writers[..], Statuses(writers[..]);
      ghost var now := was;
      for i := 0 to writers.Length
        invariant forall j :: 0 <= j < |ws| ==> writers[j] == ws[j] || writers[j] == null
        invariant |now| == |ws| && forall j :: 0 <= j < |ws| ==> StatusOf(ws[j]) == now[j]
        invariant writers[i..] == ws[i..] && now[i..] == was[i..]
        invariant forall j :: 0 <= j < i ==> Reports(errs[j], ws[j], writers[j])
        invariant forall j :: 0 <= j < i ==> SentAs(ws[j], was[j], writers[j], now[j], blocks[j])
      {
        Apart(ws, i);
        assert writers[i] == writers[i..][0] == ws[i..][0] && now[i] == now[i..][0] == was[i..][0];
        SendOne(i, blocks[i]);
        now := now[i := StatusOf(ws[i])];
        assert writers[i + 1..] == ws[i..][1..] && now[i + 1..] == was[i..][1..];
      }
    }
  }

  lemma Apart(ws: seq<Slot>, i: nat)
    requires Distinct(ws) && i < |ws|
    ensures forall j :: 0 <= j < |ws| && j != i && ws[j] != null ==> ws[j] !in Objects([ws[i]])
  {
  }

  // ---- Encode ----

  /** The disk takes its shards of all these blocks. */
  ghost predicate Survives(c: Codec, w: Slot, blocks: seq<seq<byte>>)
    requires c.Valid()
  {
    w != null && forall m :: 0 <= m < |blocks| ==> Accepts(w, m, CeilNat(|blocks[m]|, c.dataBlocks))
  }

  ghost function CeilNat(n: nat, d: nat): nat { Max(0, CeilFrac(n, d)) }

  /** The writers still in use after these blocks. */
  ghost function LiveAfter(c: Codec, ws: seq<Slot>, blocks: seq<seq<byte>>): (live: seq<Slot>)
    requires c.Valid()
    ensures |live| == |ws|
  {
    seq(|ws|, i requires 0 <= i < |ws| => if Survives(c, ws[i], blocks) then ws[i] else null)
  }

  lemma {:induction false} CountFewer(a: seq<Slot>, b: seq<Slot>)
    requires |a| == |b| && forall i :: 0 <= i < |a| && a[i] != null ==> b[i] != null
    ensures CountLive(a) <= CountLive(b)
  {
    if a != [] { CountFewer(a[1..], b[1..]); }
  }

  /** With every block there are as many writers left as before or fewer. */
  lemma LiveFewer(c: Codec, ws: seq<Slot>, blocks: seq<seq<byte>>, k: nat)
    requires c.Valid() && k <= |blocks|
    ensures CountLive(LiveAfter(c, ws, blocks)) <= CountLive(LiveAfter(c, ws, blocks[..k]))
  {
    forall i | 0 <= i < |ws| && Survives(c, ws[i], blocks) ensures Survives(c, ws[i], blocks[..k]) {
      forall m | 0 <= m < k ensures Accepts(ws[i], m, CeilNat(|blocks[..k][m]|, c.dataBlocks)) {
        assert blocks[..k][m] == blocks[m];
      }
    }
    CountFewer(LiveAfter(c, ws, blocks), LiveAfter(c, ws, blocks[..k]));
  }

  /** The quorum is lost with blocks still to come. */
  ghost predicate StopsEarly(c: Codec, ws: seq<Slot>, blocks: seq<seq<byte>>, quorum: int)
    requires c.Valid()
  {
    |blocks| >= 2 && CountLive(LiveAfter(c, ws, blocks[..|blocks| - 1])) < quorum
  }

  lemma SurvivesNext(c: Codec, w: Slot, done: seq<seq<byte>>, block: seq<byte>)
    requires c.Valid() && w != null
    ensures Survives(c, w, done + [block]) <==> Survives(c, w, done) && Accepts(w, |done|, CeilNat(|block|, c.dataBlocks))
  {
    var more := done + [block];
    assert forall m :: 0 <= m < |done| ==> more[m] == done[m];
    assert more[|done|] == block;
  }

  /**
   * What the writer at index i holds after `blocks` were sent, having started from file `f0`: a writer still in
   * use (`live`) has shard i of every block in order behind that, a dropped one has a prefix of it, and it was
   * not called after it had failed. It is still in use exactly if its disk took all of them.
   */
  ghost predicate StoredAt(c: Codec, h: Hash, w: Slot, f0: seq<byte>, live: Slot, blocks: seq<seq<byte>>, i: nat)
    requires c.Valid() && i < c.Total()
    reads w
  {
    StoredAs(c, h, w, StatusOf(w), f0, live, blocks, i)
  }

  /** The same of a writer in state `st`. */
  ghost predicate StoredAs(c: Codec, h: Hash, w: Slot, st: Status, f0: seq<byte>, live: Slot, blocks: seq<seq<byte>>, i: nat)
    requires c.Valid() && i < c.Total()
  {
    if w == null then live == null else
    && live == (if Survives(c, w, blocks) then w else null)
    && w.h == h && st.late == 0 && (live == w ==> st.count == |blocks|)
    && f0 <= st.file <= f0 + StreamOf(h, ShardsOf(c, blocks, i))
    && (live == w ==> !st.broken && st.file == f0 + StreamOf(h, ShardsOf(c, blocks, i)))
  }

  ghost predicate Stored(c: Codec, h: Hash, ws: seq<Slot>, f0: seq<seq<byte>>, live: seq<Slot>, blocks: seq<seq<byte>>)
    requires c.Valid()
    reads Objects(ws)
  {
    && |ws| == |f0| == |live| == c.Total()
    && forall i :: 0 <= i < |ws| ==> StoredAt(c, h, ws[i], f0[i], live[i], blocks, i)
  }

  lemma ShardStreamSnoc(c: Codec, h: Hash, blocks: seq<seq<byte>>, block: seq<byte>, i: nat)
    requires c.Valid() && i < c.Total()
    ensures |c.EncodeData(block)| == c.Total()
    ensures StreamOf(h, ShardsOf(c, blocks + [block], i))
         == StreamOf(h, ShardsOf(c, blocks, i)) + Frame(h, c.EncodeData(block)[i])
  {
    c.EncodeShape(block);
    assert ShardsOf(c, blocks + [block], i) == ShardsOf(c, blocks, i) + [c.EncodeData(block)[i]];
    StreamSnoc(h, ShardsOf(c, blocks, i), c.EncodeData(block)[i]);
  }

  ghost predicate FreshWriters(h: Hash, ws: seq<Slot>)
    reads Objects(ws)
  {
    forall i :: 0 <= i < |ws| && ws[i] != null ==> ws[i].h == h && !ws[i].broken && ws[i].count == 0 && ws[i].lateWrites == 0
  }

  ghost function Files(ws: seq<Slot>): (fs: seq<seq<byte>>)
    reads Objects(ws)
    ensures |fs| == |ws|
  {
    seq(|ws|, i requires 0 <= i < |ws| reads Objects(ws) => if ws[i] == null then [] else ws[i].file)
  }

  lemma Extends(f0: seq<byte>, f: seq<byte>, s: seq<byte>, t: seq<byte>)
    ensures f0 + s + t == f0 + (s + t)
    ensures f0 <= f <= f0 + s ==> f <= f0 + (s + t)
    ensures f0 + s <= f ==> f0 <= f
  {
    assert f0 + s + t == f0 + (s + t);
    assert f0 + s <= f0 + s + t;
    assert f0 <= f0 + s;
    if f0 <= f <= f0 + s {
      assert forall k :: 0 <= k < |f| ==> f[k] == (f0 + s)[k] == (f0 + s + t)[k];
    }
  }

  /** Storing one more block, seen from one writer: sent its shard if still in use, left alone otherwise. */
  lemma StoredStep(c: Codec, h: Hash, w: Slot, f0: seq<byte>, was: Status, live: Slot, now: Slot,
                   done: seq<seq<byte>>, block: seq<byte>, i: nat)
    requires c.Valid() && i < c.Total() && |c.EncodeData(block)| == c.Total() && block != []
    requires StoredAs(c, h, w, was, f0, live, done, i)
    requires if live == null then StatusOf(w) == was && now == null else SentTo(w, was, now, c.EncodeData(block)[i])
    ensures StoredAt(c, h, w, f0, now, done + [block], i)
  {
    if w != null {
      ShardLength(c, block, i);
      SurvivesNext(c, w, done, block);
      ShardStreamSnoc(c, h, done, block, i);
      Extends(f0, w.file, StreamOf(h, ShardsOf(c, done, i)), Frame(h, c.EncodeData(block)[i]));
    }
  }

  lemma ShardLength(c: Codec, block: seq<byte>, i: nat)
    requires c.Valid() && i < c.Total()
    ensures |c.EncodeData(block)| == c.Total() && |c.EncodeData(block)[i]| == CeilNat(|block|, c.dataBlocks)
    ensures block != [] ==> c.EncodeData(block)[i] != []
    ensures block == [] ==> c.EncodeData(block)[i] == []
  {
    c.EncodeShape(block);
    if block != [] { CeilFracPositive(|block|, c.dataBlocks); }
  }

  /** The empty shard sent for an empty object changes nothing. */
  lemma StoredEmpty(c: Codec, h: Hash, w: Slot, f0: seq<byte>, was: Status, live: Slot, now: Slot,
                    done: seq<seq<byte>>, i: nat)
    requires c.Valid() && i < c.Total()
    requires StoredAs(c, h, w, was, f0, live, done, i)
    requires if live == null then StatusOf(w) == was && now == null else SentTo(w, was, now, [])
    ensures StoredAt(c, h, w, f0, now, done, i)
  {
    if live != null { assert Frame(h, []) == []; assert was.file + [] == was.file; }
  }

  lemma NotAmong(ws: seq<Slot>, live: seq<Slot>, i: nat)
    requires Distinct(ws) && |live| == |ws| && forall j :: 0 <= j < |ws| ==> live[j] == null || live[j] == ws[j]
    requires i < |ws| && ws[i] != null && live[i] == null
    ensures ws[i] !in Objects(live)
  {
  }

  /** One block: encode it and send its shards. */
  method WriteBlock(c: Codec, ghost h: Hash, writer: ParallelWriter, block: seq<byte>,
                    ghost ws: seq<Slot>, ghost f0: seq<seq<byte>>, ghost done: seq<seq<byte>>) returns (err: Error)
    requires c.Valid() && h.Valid() && writer.Ready() && Distinct(ws)
    requires Stored(c, h, ws, f0, writer.writers[..], done)
    modifies writer.writers, writer.errs, Objects(ws)
    ensures writer.Ready()
    ensures Stored(c, h, ws, f0, writer.writers[..], if block == [] then done else done + [block])
    ensures err == Nil <==> CountLive(writer.writers[..]) >= writer.writeQuorum
    ensures err == Nil || QuorumLost(err)
  {
    c.EncodeShape(block);
    var blocks := c.EncodeData(block);
    ghost var live := writer.writers[..];
    forall i | 0 <= i < |ws| ensures StoredAt(c, h, ws[i], f0[i], live[i], done, i) {}
    assert Objects(live) <= Objects(ws);
    err := writer.Write(blocks);
    ghost var now := if block == [] then done else done + [block];
    forall i | 0 <= i < |ws| ensures StoredAt(c, h, ws[i], f0[i], writer.writers[i], now, i) {
      assert old(StoredAt(c, h, ws[i], f0[i], live[i], done, i));
      if ws[i] != null && live[i] == null { NotAmong(ws, live, i); }
      if block == [] {
        ShardLength(c, block, i);
        StoredEmpty(c, h, ws[i], f0[i], old(StatusOf(ws[i])), live[i], writer.writers[i], done, i);
      } else {
        StoredStep(c, h, ws[i], f0[i], old(StatusOf(ws[i])), live[i], writer.writers[i], done, block, i);
      }
    }
  }

  /** Cutting the next buffer-full off the unread rest of a stream. */
  lemma NextBlock(data: seq<byte>, pos: nat, pos': nat, n: nat)
    requires 0 < n && pos <= pos' <= |data| && pos' == Min(pos + n, |data|)
    ensures Blocks(data[pos..], n)
         == (if pos == pos' then [] else [data[pos..pos']]) + Blocks(data[pos'..], n)
  {
    var rest := data[pos..];
    if |rest| >= n {
      BlocksFirst(rest, n);
      assert rest[..n] == data[pos..pos'] && rest[n..] == data[pos'..];
    } else {
      assert data[pos..pos'] == rest && data[pos'..] == [];
    }
  }

  ghost predicate AllFull(blocks: seq<seq<byte>>, n: nat) {
    forall k :: 0 <= k < |blocks| ==> |blocks[k]| == n
  }

  /** `done` are the blocks cut so far from the first `pos` bytes, the others are still in the source. */
  ghost predicate Accounted(data: seq<byte>, failure: bool, n: nat, pos: nat, done: seq<seq<byte>>)
    requires n > 0
  {
    && pos <= |data|
    && Blocks(data, n) == done + Blocks(data[pos..], n)
    && (failure ==> AllFull(done, n))
  }

  lemma AccountNext(data: seq<byte>, failure: bool, n: nat, pos: nat, pos': nat, done: seq<seq<byte>>)
    requires n > 0 && Accounted(data, failure, n, pos, done) && pos <= pos' == Min(pos + n, |data|)
    ensures done <= Blocks(data, n)
    ensures pos == pos' ==> Accounted(data, failure, n, pos', done)
    ensures pos < pos' && (failure ==> pos' - pos == n) ==> Accounted(data, failure, n, pos', done + [data[pos..pos']])
    ensures pos < pos' ==> done + [data[pos..pos']] <= Blocks(data, n)
    ensures pos' == |data| && pos == pos' ==> Blocks(data, n) == done
    ensures pos' == |data| && pos < pos' ==> Blocks(data, n) == done + [data[pos..pos']]
  {
    NextBlock(data, pos, pos', n);
    if pos < pos' {
      var b, rest := data[pos..pos'], Blocks(data[pos'..], n);
      assert done + ([b] + rest) == (done + [b]) + rest;
    }
  }

  /** How many blocks there are behind the next. */
  lemma BlocksLeft(data: seq<byte>, failure: bool, n: nat, pos: nat, done: seq<seq<byte>>)
    requires n > 0 && Accounted(data, failure, n, pos, done)
    ensures pos + n < |data| ==> |done| + 1 < |Blocks(data, n)|
    ensures pos + n >= |data| ==> |Blocks(data, n)| <= |done| + 1
  {
    var rest := data[pos..];
    if |rest| >= n {
      BlocksFirst(rest, n);
      if |rest| == n { assert rest[n..] == []; }
    }
  }

  lemma AllAccounted(data: seq<byte>, failure: bool, n: nat, done: seq<seq<byte>>)
    requires n > 0 && Accounted(data, failure, n, |data|, done)
    ensures Blocks(data, n) == done
  {
    assert data[|data|..] == [];
  }

  ghost predicate Sending(c: Codec, h: Hash, src: Source, writer: ParallelWriter, bufLen: nat,
                          ws: seq<Slot>, f0: seq<seq<byte>>, done: seq<seq<byte>>)
    requires c.Valid() && bufLen > 0
    reads src, writer.writers, Objects(ws)
  {
    && writer.Ready() && Distinct(ws)
    && Accounted(src.data, src.Fails(), bufLen, src.pos, done)
    && Stored(c, h, ws, f0, writer.writers[..], done)
  }

  /** One round of Encode's loop: n bytes read and sent; `last` when the loop is left. */
  method EncodeRound(c: Codec, ghost h: Hash, src: Source, writer: ParallelWriter, bufLen: nat, total: nat,
                     ghost ws: seq<Slot>, ghost f0: seq<seq<byte>>, ghost done: seq<seq<byte>>)
    returns (n: nat, last: bool, err: Error, ghost done': seq<seq<byte>>, ghost read: bool)
    requires c.Valid() && h.Valid() && bufLen > 0
    requires Sending(c, h, src, writer, bufLen, ws, f0, done)
    requires total == src.pos && (total == 0 ==> done == [])
    modifies src, writer.writers, writer.errs, Objects(ws)
    ensures done' <= Blocks(src.data, bufLen) && Stored(c, h, ws, f0, writer.writers[..], done') && src.Valid()
    ensures src.Fails() ==> AllFull(done', bufLen)
    ensures err == Nil ==> Sending(c, h, src, writer, bufLen, ws, f0, done') && src.pos == total + n
    ensures err == Nil && last ==> src.pos == |src.data| && !src.Fails()
    ensures err == Nil && !last ==> n == bufLen
    ensures err == Nil ==> CountLive(writer.writers[..]) >= writer.writeQuorum
                           || (n == 0 && total != 0 && done' == done)
    ensures n > 0 && err == Nil ==> done' != []
    ensures if read then err == Nil || QuorumLost(err) else err == SourceFailed
    ensures !read ==> src.Fails() && done' == done && writer.writers[..] == old(writer.writers[..])
    ensures !read ==> src.pos == |src.data| && |Blocks(src.data, bufLen)| <= |done| + 1
    ensures err != Nil && read ==> CountLive(writer.writers[..]) < writer.writeQuorum && done <= done' && |done'| <= |done| + 1
    ensures err != Nil && read ==> (src.pos < |src.data| <==> 0 < |done'| < |Blocks(src.data, bufLen)|)
    ensures err != Nil && read ==> src.pos < |src.data| || done' == Blocks(src.data, bufLen)
  {
    done', read := done, true;
    BlocksLeft(src.data, src.Fails(), bufLen, src.pos, done);
    var buf, status := src.Read(bufLen);
    n := |buf|;
    AccountNext(src.data, src.Fails(), bufLen, total, src.pos, done);
    if status == Failed {
      return n, true, SourceFailed, done, false;
    }
    var eof := status == EOF || status == UnexpectedEOF;
    if n == 0 && total != 0 {
      return n, true, Nil, done, true;
    }
    err := WriteBlock(c, h, writer, buf, ws, f0, done);
    if n != 0 {
      done' := done + [buf];
    }
    last := eof;
  }

  lemma LiveIs(c: Codec, h: Hash, ws: seq<Slot>, f0: seq<seq<byte>>, live: seq<Slot>, blocks: seq<seq<byte>>)
    requires c.Valid() && Stored(c, h, ws, f0, live, blocks)
    ensures live == LiveAfter(c, ws, blocks)
  {
    forall i | 0 <= i < |ws| ensures live[i] == LiveAfter(c, ws, blocks)[i] {
      assert StoredAt(c, h, ws[i], f0[i], live[i], blocks, i);
    }
  }

  /** Whether the quorum held throughout, and whether it was lost early, from where the rounds came to. */
  lemma QuorumSoFar(c: Codec, ws: seq<Slot>, all: seq<seq<byte>>, done: seq<seq<byte>>, quorum: int)
    requires c.Valid() && done <= all
    ensures CountLive(LiveAfter(c, ws, done)) < quorum ==> CountLive(LiveAfter(c, ws, all)) < quorum
    ensures CountLive(LiveAfter(c, ws, done)) < quorum && 0 < |done| < |all| ==> StopsEarly(c, ws, all, quorum)
    ensures CountLive(LiveAfter(c, ws, done)) >= quorum && |all| <= |done| + 1 ==> !StopsEarly(c, ws, all, quorum)
    ensures |all| <= 1 ==> !StopsEarly(c, ws, all, quorum)
  {
    assert all[..|done|] == done;
    LiveFewer(c, ws, all, |done|);
    if |all| > 0 {
      var n := |all| - 1;
      if |done| <= n {
        LiveFewer(c, ws, all[..n], |done|);
        assert all[..n][..|done|] == done;
      } else {
        LiveFewer(c, ws, done, n);
        assert done[..n] == all[..n];
      }
    }
  }

  /** The round, with what it means for the quorum: it holds, or the outcome is decided. */
  method Round(c: Codec, ghost h: Hash, src: Source, writer: ParallelWriter, bufLen: nat, total: nat,
               ghost ws: seq<Slot>, ghost f0: seq<seq<byte>>, ghost done: seq<seq<byte>>)
    returns (n: nat, last: bool, err: Error, ghost done': seq<seq<byte>>)
    requires c.Valid() && h.Valid() && bufLen > 0 && Sending(c, h, src, writer, bufLen, ws, f0, done)
    requires total == src.pos && (total == 0 <==> done == [])
    requires total != 0 ==> CountLive(LiveAfter(c, ws, done)) >= writer.writeQuorum
    modifies src, writer.writers, writer.errs, Objects(ws)
    ensures done' <= Blocks(src.data, bufLen) && Stored(c, h, ws, f0, writer.writers[..], done') && src.Valid()
    ensures src.Fails() ==> AllFull(done', bufLen)
    ensures err == Nil ==> Sending(c, h, src, writer, bufLen, ws, f0, done') && src.pos == total + n && (src.pos == 0 <==> done' == [])
    ensures err == Nil ==> CountLive(LiveAfter(c, ws, done')) >= writer.writeQuorum
    ensures err == Nil ==> if last then src.pos == |src.data| && !src.Fails() && done' == Blocks(src.data, bufLen) else n == bufLen
    ensures err != Nil ==> (src.pos < |src.data| <==> StopsEarly(c, ws, Blocks(src.data, bufLen), writer.writeQuorum))
    ensures err == Nil || QuorumLost(err) || (err == SourceFailed && src.Fails())
    ensures QuorumLost(err) ==> CountLive(LiveAfter(c, ws, done')) < writer.writeQuorum
  {
    ghost var all, q, read := Blocks(src.data, bufLen), writer.writeQuorum, true;
    n, last, err, done', read := EncodeRound(c, h, src, writer, bufLen, total, ws, f0, done);
    LiveIs(c, h, ws, f0, writer.writers[..], done');
    if err != Nil {
      Decided(c, ws, all, done, done', q, read);
    } else if last {
      AllAccounted(src.data, src.Fails(), bufLen, done');
    }
  }

  lemma Decided(c: Codec, ws: seq<Slot>, all: seq<seq<byte>>, done: seq<seq<byte>>, done': seq<seq<byte>>, quorum: int, read: bool)
    requires c.Valid() && done <= done' <= all && |done'| <= |done| + 1
    requires done != [] ==> CountLive(LiveAfter(c, ws, done)) >= quorum
    requires read ==> CountLive(LiveAfter(c, ws, done')) < quorum && (0 < |done'| || all == [])
    requires !read ==> |all| <= |done| + 1
    ensures StopsEarly(c, ws, all, quorum) <==> read && 0 < |done'| < |all|
  {
    QuorumSoFar(c, ws, all, done, quorum);
    QuorumSoFar(c, ws, all, done', quorum);
  }

  /**
   * `Erasure.Encode` with a buffer of `bufLen` bytes; `sent` is the number of blocks sent. It succeeds exactly if the
   * source does not break and `quorum` disks take their shards of all blocks. Then the whole source was read and those
   * disks hold all shards of their index in order. It leaves some of the source unread exactly if the quorum is lost
   * with blocks still to come. From a source that breaks only full buffers are sent.
   */
  method Encode(c: Codec, ghost h: Hash, src: Source, writers: array<Slot>, bufLen: nat, quorum: int)
    returns (total: nat, err: Error, ghost sent: nat)
    requires c.Valid() && h.Valid() && bufLen > 0
    requires src.Valid() && src.pos == 0
    requires writers.Length == c.Total() && Distinct(writers[..]) && FreshWriters(h, writers[..])
    modifies src, writers, Objects(writers[..])
    ensures sent <= |Blocks(src.data, bufLen)| && src.Valid()
    ensures Stored(c, h, old(writers[..]), old(Files(writers[..])), writers[..], Blocks(src.data, bufLen)[..sent])
    ensures err == Nil <==> !src.Fails() && CountLive(writers[..]) >= quorum
    ensures err == Nil <==> !src.Fails() && CountLive(LiveAfter(c, old(writers[..]), Blocks(src.data, bufLen))) >= quorum
    ensures src.pos < |src.data| <==> StopsEarly(c, old(writers[..]), Blocks(src.data, bufLen), quorum)
    ensures err == Nil || QuorumLost(err) || (err == SourceFailed && src.Fails())
    ensures QuorumLost(err) ==> CountLive(writers[..]) < quorum
    ensures err == Nil ==> total == |src.data| && sent == |Blocks(src.data, bufLen)|
    ensures err != Nil ==> total == 0
    ensures src.Fails() ==> AllFull(Blocks(src.data, bufLen)[..sent], bufLen)
  {
    var writer := new ParallelWriter(writers, quorum);
    ghost var ws, f0, all := writers[..], Files(writers[..]), Blocks(src.data, bufLen);
    ghost var done: seq<seq<byte>>;
    StartsEmpty(c, h, ws, f0);
    total, err, done := SendBlocks(c, h, src, writer, bufLen, ws, f0);
    sent := |done|;
    Finish(c, h, ws, f0, writers[..], all, done, quorum);
  }

  /** Its loop; `done` are the blocks sent. */
  method SendBlocks(c: Codec, ghost h: Hash, src: Source, writer: ParallelWriter, bufLen: nat, ghost ws: seq<Slot>, ghost f0: seq<seq<byte>>)
    returns (total: nat, err: Error, ghost done: seq<seq<byte>>)
    requires c.Valid() && h.Valid() && bufLen > 0 && src.pos == 0 && Sending(c, h, src, writer, bufLen, ws, f0, [])
    modifies src, writer.writers, writer.errs, Objects(ws)
    ensures done <= Blocks(src.data, bufLen) && Stored(c, h, ws, f0, writer.writers[..], done) && src.Valid()
    ensures src.Fails() ==> AllFull(done, bufLen)
    ensures err == Nil ==>
              && total == src.pos == |src.data| && !src.Fails() && done == Blocks(src.data, bufLen)
              && CountLive(LiveAfter(c, ws, done)) >= writer.writeQuorum
    ensures err != Nil ==> total == 0 && (src.pos < |src.data| <==> StopsEarly(c, ws, Blocks(src.data, bufLen), writer.writeQuorum))
    ensures err == Nil || QuorumLost(err) || (err == SourceFailed && src.Fails())
    ensures QuorumLost(err) ==> CountLive(LiveAfter(c, ws, done)) < writer.writeQuorum
  {
    total, err, done := 0, Nil, [];
    var last := false;
    while !last
      invariant err == Nil && Sending(c, h, src, writer, bufLen, ws, f0, done)
      invariant total == src.pos && (total == 0 <==> done == [])
      invariant total != 0 || last ==> CountLive(LiveAfter(c, ws, done)) >= writer.writeQuorum
      invariant last ==> total == |src.data| && !src.Fails() && done == Blocks(src.data, bufLen)
      decreases |src.data| - src.pos, !last
    {
      var n;
      n, last, err, done := Round(c, h, src, writer, bufLen, total, ws, f0, done);
      if err != Nil {
        return 0, err, done;
      }
      total := total + n;
    }
  }

  lemma Finish(c: Codec, h: Hash, ws: seq<Slot>, f0: seq<seq<byte>>, live: seq<Slot>, all: seq<seq<byte>>,
               done: seq<seq<byte>>, quorum: int)
    requires c.Valid() && done <= all && Stored(c, h, ws, f0, live, done)
    ensures all[..|done|] == done && CountLive(live) == CountLive(LiveAfter(c, ws, done))
    ensures CountLive(live) < quorum ==> CountLive(LiveAfter(c, ws, all)) < quorum
    ensures CountLive(live) >= quorum && done == all ==> !StopsEarly(c, ws, all, quorum)
  {
    LiveIs(c, h, ws, f0, live, done);
    QuorumSoFar(c, ws, all, done, quorum);
  }

  lemma StartsEmpty(c: Codec, h: Hash, ws: seq<Slot>, f0: seq<seq<byte>>)
    requires c.Valid() && |ws| == c.Total() && FreshWriters(h, ws) && f0 == Files(ws)
    ensures Stored(c, h, ws, f0, ws, [])
  {
    forall i | 0 <= i < |ws| ensures StoredAt(c, h, ws[i], f0[i], ws[i], [], i) {
      assert ShardsOf(c, [], i) == [];
    }
  }
}
