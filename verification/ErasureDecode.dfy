/** Reading a byte range of an erasure-coded object from whichever disks work. */
module ErasureDecode {
  import opened Bytes
  import opened ErasureCode
  import opened Geometry
  import opened BitrotStream
  import opened ParallelRead
  import opened DataBlocks

  /** An entry of the readers slice; null is a missing or failed disk. */
  type Slot = StreamingBitrotReader?

  ghost predicate Distinct(rs: seq<Slot>) {
    forall i, j :: 0 <= i < j < |rs| && rs[i] != null ==> rs[i] != rs[j]
  }

  ghost function Objects(rs: seq<Slot>): set<StreamingBitrotReader> {
    set i | 0 <= i < |rs| && rs[i] != null :: rs[i]
  }

  function Present(rs: seq<Slot>): (p: seq<bool>)
    ensures |p| == |rs|
  {
    seq(|rs|, i requires 0 <= i < |rs| => rs[i] != null)
  }

  /** Every reader is set up for shards of S bytes. */
  ghost predicate Configured(rs: seq<Slot>, S: nat) {
    forall i :: 0 <= i < |rs| && rs[i] != null ==> rs[i].shardSize == S && rs[i].h.Valid()
  }

  /** Which disks deliver n bytes at shard offset `offset`. */
  function Delivering(rs: seq<Slot>, S: nat, offset: nat, n: nat): (w: seq<bool>)
    requires S > 0 && Configured(rs, S)
    ensures |w| == |rs|
  {
    seq(|rs|, i requires 0 <= i < |rs| => rs[i] != null && rs[i].Works(offset, n))
  }

  /** The disks left in use after one read: those tried and found broken are dropped. */
  function Survivors(rs: seq<Slot>, w: seq<bool>, d: nat): (rs': seq<Slot>)
    requires |rs| == |w|
    ensures |rs'| == |rs|
  {
    seq(|rs|, i requires 0 <= i < |rs| => if i < TryCount(w, d) && !w[i] then null else rs[i])
  }

  ghost predicate InStepAt(rs: seq<Slot>, d: nat, offset: nat, i: nat)
    requires i < |rs| && (rs[i] != null ==> rs[i].shardSize > 0)
    reads rs[i]
  {
    rs[i] != null ==> rs[i].InSync(offset) && (rs[i].rc.Some? ==> CountTrue(Present(rs)[..i]) < d)
  }

  /** Disks already opened are among the first d still in use and stand exactly at `offset`. */
  ghost predicate InStep(rs: seq<Slot>, S: nat, d: nat, offset: nat)
    requires S > 0 && Configured(rs, S)
    reads Objects(rs)
  {
    forall i :: 0 <= i < |rs| ==> InStepAt(rs, d, offset, i)
  }

  lemma {:induction false} CountMono(a: seq<bool>, b: seq<bool>)
    requires |a| == |b| && forall i :: 0 <= i < |a| && a[i] ==> b[i]
    ensures CountTrue(a) <= CountTrue(b)
  {
    if a != [] { CountMono(a[1..], b[1..]); }
  }

  /** A disk beyond the ones tried has d disks in use before it. */
  lemma EnoughBefore(rs: seq<Slot>, w: seq<bool>, d: nat, i: nat)
    requires |w| == |rs| && forall j :: 0 <= j < |rs| && w[j] ==> rs[j] != null
    requires TryCount(w, d) <= i < |rs| && d > 0
    ensures CountTrue(Present(rs)[..i]) >= d
  {
    var m := TryCount(w, d);
    TryCountIsLeast(w, d, m);
    PrefixCounts(w[..i], m);
    assert w[..i][..m] == w[..m];
    CountMono(w[..i], Present(rs)[..i]);
  }

  /** Among the disks tried, those still in use are the working ones. */
  lemma SurvivorsCount(rs: seq<Slot>, w: seq<bool>, d: nat, i: nat)
    requires |w| == |rs| && d > 0 && i < TryCount(w, d)
    requires forall j :: 0 <= j < |rs| && w[j] ==> rs[j] != null
    ensures CountTrue(Present(Survivors(rs, w, d))[..i]) < d
  {
    var m := TryCount(w, d);
    TryCountIsLeast(w, d, m);
    PrefixCounts(w[..m - 1], i);
    assert w[..m - 1][..i] == w[..i];
    assert forall j :: 0 <= j < i ==> Present(Survivors(rs, w, d))[j] == w[j];
    assert Present(Survivors(rs, w, d))[..i] == w[..i];
  }

  /** What Read returns: the payload of every disk tried that works. */
  function Gathered(rs: seq<Slot>, S: nat, w: seq<bool>, d: nat, offset: nat, n: nat): (bufs: seq<Option<Shard>>)
    requires S > 0 && Configured(rs, S) && w == Delivering(rs, S, offset, n)
    ensures |bufs| == |rs|
  {
    seq(|rs|, i requires 0 <= i < |rs| =>
      if i < TryCount(w, d) && w[i] then Some(rs[i].Payload(offset, n)) else None)
  }

  /** Where a reader's stream stands, and whether a "can never happen" branch was taken. */
  datatype Cursor = Cursor(rc: Option<seq<byte>>, currOffset: int, unexpected: bool)

  ghost function CursorOf(r: Slot): Cursor
    reads r
  {
    if r == null then Cursor(None, 0, false) else Cursor(r.rc, r.currOffset, r.unexpected)
  }

  /** The reader's stream stands right behind the n bytes at `offset`. */
  ghost predicate Behind(r: StreamingBitrotReader, cur: Cursor, offset: nat, n: nat)
    requires r.shardSize > 0
  {
    cur.currOffset == offset + n && |r.Stream(offset)| >= r.h.size + n && cur.rc == Some(r.Stream(offset)[r.h.size + n..])
  }

  /** Disk r was tried: it delivered and stays, or was dropped. */
  ghost predicate TriedAt(r: Slot, was: Cursor, offset: nat, n: nat, now: Slot, buf: Option<Shard>)
    reads r
  {
    TriedAs(r, was, CursorOf(r), offset, n, now, buf)
  }

  /** The same of a disk whose stream now stands at `cur`. */
  ghost predicate TriedAs(r: Slot, was: Cursor, cur: Cursor, offset: nat, n: nat, now: Slot, buf: Option<Shard>) {
    if r == null then now == null && buf == None else
    && r.shardSize > 0 && cur.unexpected == was.unexpected
    && if r.Works(offset, n)
       then now == r && buf == Some(r.Payload(offset, n)) && Behind(r, cur, offset, n)
       else now == null && buf == None
  }

  /** The first m disks were tried, the others left alone. */
  ghost predicate TriedTill(rs: seq<Slot>, was: seq<Cursor>, now: seq<Cursor>, offset: nat, n: nat, live: seq<Slot>,
                            bufs: seq<Option<Shard>>, m: nat)
  {
    && m <= |rs| == |was| == |now| == |live| == |bufs|
    && (forall j :: 0 <= j < m ==> TriedAs(rs[j], was[j], now[j], offset, n, live[j], bufs[j]))
    && forall j :: m <= j < |rs| ==> live[j] == rs[j] && now[j] == was[j] && bufs[j] == None
  }

  lemma TriedNext(rs: seq<Slot>, was: seq<Cursor>, now: seq<Cursor>, offset: nat, n: nat, live: seq<Slot>,
                  bufs: seq<Option<Shard>>, m: nat, cur: Cursor, slot: Slot, buf: Option<Shard>)
    requires m < |rs| && TriedTill(rs, was, now, offset, n, live, bufs, m)
    requires TriedAs(rs[m], was[m], cur, offset, n, slot, buf)
    ensures TriedTill(rs, was, now[m := cur], offset, n, live[m := slot], bufs[m := buf], m + 1)
  {
  }

  /** Disk r was left alone. */
  ghost predicate UntriedAt(r: Slot, was: Cursor, now: Slot, buf: Option<Shard>)
    reads r
  {
    now == r && buf == None && CursorOf(r) == was
  }

  ghost function Cursors(rs: seq<Slot>): (cs: seq<Cursor>)
    reads Objects(rs)
    ensures |cs| == |rs|
  {
    seq(|rs|, i requires 0 <= i < |rs| reads Objects(rs) => CursorOf(rs[i]))
  }

  ghost predicate OpenedEarly(rs: seq<Slot>, cs: seq<Cursor>, d: nat, i: nat)
    requires i < |rs| == |cs|
  {
    rs[i] != null && cs[i].rc.Some? ==> CountTrue(Present(rs)[..i]) < d
  }

  /** What one Read did to disk i. */
  ghost predicate VisitedAt(rs: seq<Slot>, cs: seq<Cursor>, w: seq<bool>, d: nat, offset: nat, n: nat,
                            now: seq<Slot>, bufs: seq<Option<Shard>>, i: nat)
    requires i < |rs| == |cs| == |now| == |bufs| == |w|
    reads rs[i]
  {
    if i < TryCount(w, d) then TriedAt(rs[i], cs[i], offset, n, now[i], bufs[i])
    else UntriedAt(rs[i], cs[i], now[i], bufs[i])
  }

  lemma TriedIsVisited(rs: seq<Slot>, cs: seq<Cursor>, w: seq<bool>, d: nat, offset: nat, n: nat,
                       now: seq<Slot>, bufs: seq<Option<Shard>>)
    requires |w| == |rs| && TriedTill(rs, cs, Cursors(rs), offset, n, now, bufs, TryCount(w, d))
    ensures forall i :: 0 <= i < |rs| ==> VisitedAt(rs, cs, w, d, offset, n, now, bufs, i)
  {
    forall i | 0 <= i < |rs| ensures VisitedAt(rs, cs, w, d, offset, n, now, bufs, i) {
      assert Cursors(rs)[i] == CursorOf(rs[i]);
    }
  }

  lemma InStepOpenedEarly(rs: seq<Slot>, S: nat, d: nat, offset: nat)
    requires S > 0 && Configured(rs, S) && InStep(rs, S, d, offset)
    ensures forall i :: 0 <= i < |rs| ==> OpenedEarly(rs, Cursors(rs), d, i)
  {
    forall i | 0 <= i < |rs| ensures OpenedEarly(rs, Cursors(rs), d, i) {
      assert InStepAt(rs, d, offset, i);
    }
  }

  lemma VisitedOutcome(rs: seq<Slot>, cs: seq<Cursor>, S: nat, w: seq<bool>, d: nat, offset: nat, n: nat,
                       now: seq<Slot>, bufs: seq<Option<Shard>>)
    requires S > 0 && Configured(rs, S) && w == Delivering(rs, S, offset, n)
    requires |rs| == |cs| == |now| == |bufs|
    requires forall i :: 0 <= i < |rs| ==> VisitedAt(rs, cs, w, d, offset, n, now, bufs, i)
    ensures now == Survivors(rs, w, d) && bufs == Gathered(rs, S, w, d, offset, n)
    ensures forall i :: 0 <= i < |rs| && rs[i] != null ==> rs[i].unexpected == cs[i].unexpected
  {
    forall i | 0 <= i < |rs|
      ensures now[i] == Survivors(rs, w, d)[i] && bufs[i] == Gathered(rs, S, w, d, offset, n)[i]
      ensures rs[i] != null ==> rs[i].unexpected == cs[i].unexpected
    {
      assert VisitedAt(rs, cs, w, d, offset, n, now, bufs, i);
    }
  }

  /** Reading a full chunk leaves every disk still in use in step for the next one. */
  lemma NextInStep(rs: seq<Slot>, cs: seq<Cursor>, S: nat, w: seq<bool>, d: nat, k: nat,
                   now: seq<Slot>, bufs: seq<Option<Shard>>)
    requires S > 0 && d > 0 && Configured(rs, S) && w == Delivering(rs, S, k * S, S)
    requires |rs| == |cs| == |now| == |bufs|
    requires forall i :: 0 <= i < |rs| ==> OpenedEarly(rs, cs, d, i)
    requires forall i :: 0 <= i < |rs| ==> VisitedAt(rs, cs, w, d, k * S, S, now, bufs, i)
    requires now == Survivors(rs, w, d)
    ensures Configured(now, S) && InStep(now, S, d, (k + 1) * S)
  {
    var next := (k + 1) * S;
    assert next == k * S + S;
    forall i | 0 <= i < |rs| ensures InStepAt(now, d, next, i) {
      assert VisitedAt(rs, cs, w, d, k * S, S, now, bufs, i);
      if now[i] != null {
        if i < TryCount(w, d) {
          SurvivorsCount(rs, w, d, i);
          rs[i].StreamAdvances(k);
        } else {
          EnoughBefore(rs, w, d, i);
          assert OpenedEarly(rs, cs, d, i);
        }
      }
    }
  }

  class ParallelReader {
    const readers: array<Slot>
    const dataBlocks: nat
    const shardFileSize: int
    var offset: nat
    var shardSize: int

    constructor (readers: array<Slot>, e: Erasure, offset: nat, totalLength: nat)
      requires e.Valid()
      ensures this.readers == readers && dataBlocks == e.codec.dataBlocks
      ensures this.offset == e.BlockOf(offset) * e.ShardSize() && shardSize == e.ShardSize()
      ensures shardFileSize == e.ShardFileSize(totalLength)
    {
      e.ShardSizePositive();
      MulMono(0, offset / e.blockSize, e.ShardSize());
      this.readers, dataBlocks := readers, e.codec.dataBlocks;
      this.offset, shardSize := (offset / e.blockSize) * e.ShardSize(), e.ShardSize();
      shardFileSize := e.ShardFileSize(totalLength);
    }

    /** The size of the chunk the next Read asks for. */
    function NextSize(): int
      reads this
    {
      if offset + shardSize > shardFileSize then shardFileSize - offset else shardSize
    }

    /** In use, and at chunk k: aligned, and every disk in step. */
    ghost predicate AtChunk(S: nat, k: nat)
      reads this, readers, Objects(readers[..])
    {
      && S > 0 && dataBlocks > 0 && offset == k * S && shardSize == S
      && 0 < NextSize()
      && Distinct(readers[..]) && Configured(readers[..], S)
      && InStep(readers[..], S, dataBlocks, offset)
    }

    /** One goroutine: read from disk i, and drop it when that fails. */
    method TryDisk(i: nat) returns (buf: Option<Shard>)
      requires i < readers.Length && shardSize > 0
      requires readers[i] != null ==>
                 var r := readers[i]; r.shardSize > 0 && r.h.Valid() && offset % r.shardSize == 0 && r.InSync(offset)
      modifies readers, Objects([readers[i]])
      ensures var r := old(readers[i]);
              && (buf.Some? <==> r != null && r.Works(offset, shardSize))
              && (buf.Some? ==> buf.value == r.Payload(offset, shardSize) && Behind(r, CursorOf(r), offset, shardSize))
              && readers[..] == old(readers[..])[i := if buf.Some? then r else null]
              && (r != null ==> r.unexpected == old(readers[i].unexpected))
    {
      var disk := readers[i];
      if disk == null {
        return None;
      }
      assert [disk][0] in Objects([disk]);
      var r := disk.ReadAt(shardSize, offset);
      if r.Err? {
        readers[i] := null;
        return None;
      }
      return Some(r.buf);
    }

    /** The next disk is tried. */
    method TryNext(i: nat, ghost rs: seq<Slot>, ghost was: seq<Cursor>, ghost now: seq<Cursor>, bufs: seq<Option<Shard>>)
      returns (bufs': seq<Option<Shard>>, ghost now': seq<Cursor>)
      requires i < |rs| == readers.Length && shardSize > 0 && Distinct(rs)
      requires TriedTill(rs, was, now, offset, shardSize, readers[..], bufs, i)
      requires now == Cursors(rs)
      requires rs[i] != null ==> rs[i].shardSize > 0 && rs[i].h.Valid() && offset % rs[i].shardSize == 0 && rs[i].InSync(offset)
      modifies readers, Objects([rs[i]])
      ensures TriedTill(rs, was, now', offset, shardSize, readers[..], bufs', i + 1)
      ensures now' == Cursors(rs)
      ensures bufs'[i].Some? <==> rs[i] != null && rs[i].Works(offset, shardSize)
    {
      ghost var live := readers[..];
      assert readers[i] == live[i] == rs[i];
      Apart(rs, i);
      var buf := TryDisk(i);
      TriedNext(rs, was, now, offset, shardSize, live, bufs, i, CursorOf(rs[i]), readers[i], buf);
      return bufs[i := buf], now[i := CursorOf(rs[i])];
    }

    /** Disks in index order, one at a time, until dataBlocks of them delivered. */
    method TryDisks(ghost S: nat) returns (bufs: seq<Option<Shard>>, got: nat)
      requires S > 0 && dataBlocks > 0 && offset % S == 0 && shardSize > 0
      requires Distinct(readers[..]) && Configured(readers[..], S) && InStep(readers[..], S, dataBlocks, offset)
      modifies readers, Objects(readers[..])
      ensures |bufs| == readers.Length
      ensures var rs := old(readers[..]);
              var w := Delivering(rs, S, offset, shardSize);
              var m := TryCount(w, dataBlocks);
              && got == CountTrue(w[..m])
              && TriedTill(rs, old(Cursors(readers[..])), Cursors(rs), offset, shardSize, readers[..], bufs, m)
    {
      ghost var rs, was := readers[..], Cursors(readers[..]);
      ghost var w, now := Delivering(rs, S, offset, shardSize), was;
      bufs, got := seq(readers.Length, _ => None), 0;
      var i := 0;
      while i < readers.Length && got < dataBlocks
        invariant i <= |rs| == |bufs| == |now| && got == CountTrue(w[..i]) && (i > 0 ==> CountTrue(w[..i - 1]) < dataBlocks)
        invariant now == Cursors(rs) && TriedTill(rs, was, now, offset, shardSize, readers[..], bufs, i)
      {
        CountTruePrefix(w, i);
        assert old(InStepAt(rs, dataBlocks, offset, i));
        bufs, now := TryNext(i, rs, was, now, bufs);
        got := got + if bufs[i].Some? then 1 else 0;
        i := i + 1;
      }
      TryCountIsLeast(w, dataBlocks, i);
    }

    /**
     * `parallelReader.Read`: tries disks in index order until dataBlocks of them delivered. This is the schedule
     * that tries one disk at a time; ParallelRead.EveryInterleaving shows that all others end the same.
     */
    method Read(ghost S: nat, ghost k: nat) returns (bufs: Option<seq<Option<Shard>>>)
      requires AtChunk(S, k)
      modifies this, readers, Objects(readers[..])
      ensures shardSize == old(NextSize()) && shardSize > 0
      ensures var w := Delivering(old(readers[..]), S, k * S, shardSize);
              && (bufs.Some? <==> CountTrue(w) >= dataBlocks)
              && (bufs.Some? ==> bufs.value == Gathered(old(readers[..]), S, w, dataBlocks, k * S, shardSize))
              && readers[..] == Survivors(old(readers[..]), w, dataBlocks)
      ensures bufs.Some? ==> offset == old(offset) + shardSize
      ensures bufs.Some? && shardSize == S && offset < shardFileSize ==> AtChunk(S, k + 1)
      ensures forall i :: 0 <= i < readers.Length && old(readers[i]) != null ==>
                old(readers[i]).unexpected == old(readers[i].unexpected)
    {
      if offset + shardSize > shardFileSize {
        shardSize := shardFileSize - offset;
      }
      MulDivMod(k, S);
      ghost var rs, cs := readers[..], Cursors(readers[..]);
      InStepOpenedEarly(rs, S, dataBlocks, offset);
      var newBuf, got := TryDisks(S);
      ghost var w := Delivering(rs, S, k * S, shardSize);
      TriedIsVisited(rs, cs, w, dataBlocks, k * S, shardSize, readers[..], newBuf);
      TriedEnough(w, dataBlocks);
      VisitedOutcome(rs, cs, S, w, dataBlocks, k * S, shardSize, readers[..], newBuf);
      if got >= dataBlocks {
        offset := offset + shardSize;
        if shardSize == S && offset < shardFileSize {
          assert offset == (k + 1) * S;
          NextInStep(rs, cs, S, w, dataBlocks, k, readers[..], newBuf);
        }
        return Some(newBuf);
      }
      return None;
    }
  }

  lemma Apart(rs: seq<Slot>, i: nat)
    requires Distinct(rs) && i < |rs|
    ensures forall j :: 0 <= j < |rs| && j != i && rs[j] != null ==> rs[j] !in Objects([rs[i]])
  {
  }

  /** The prefix tried holds d working disks iff there are d at all. */
  lemma TriedEnough(w: seq<bool>, d: nat)
    requires d > 0
    ensures CountTrue(w[..TryCount(w, d)]) >= d <==> CountTrue(w) >= d
  {
    var m := TryCount(w, d);
    TryCountIsLeast(w, d, m);
    PrefixCounts(w, m);
    if m == |w| { assert w[..m] == w; }
  }

  // ---- Decode ----

  datatype DecodeError = NoError | InvalidArgument | ReadQuorum | WriteFailed(error: WriteError) | LessData

  /** Disk i serves nothing but the chunks of shard i of `data`, or errors. */
  ghost predicate HonestDisks(e: Erasure, data: seq<byte>, rs: seq<Slot>)
    requires e.Valid() && |rs| == e.codec.Total()
  {
    e.ShardSizePositive();
    forall i :: 0 <= i < |rs| && rs[i] != null ==>
      && rs[i].shardSize == e.ShardSize() && rs[i].h.Valid()
      && rs[i].Honest(ShardChunks(e.codec, data, e.blockSize, i))
  }

  /** Which disks deliver chunk k of an object of `total` bytes. */
  function DeliveringChunk(e: Erasure, total: nat, rs: seq<Slot>, k: nat): (w: seq<bool>)
    requires e.Valid() && k * e.blockSize < total && Configured(rs, e.ShardSize())
    ensures |w| == |rs|
  {
    e.ShardSizePositive();
    e.ChunkExtent(total, k);
    MulMono(0, k, e.ShardSize());
    Delivering(rs, e.ShardSize(), k * e.ShardSize(), e.ChunkLen(total, k))
  }

  /** From block k on, every read of the object up to byte `end` finds dataBlocks disks among those still in use. */
  ghost predicate Served(e: Erasure, total: nat, end: nat, rs: seq<Slot>, k: nat)
    requires e.Valid() && Configured(rs, e.ShardSize()) && end <= total
    decreases end - k
  {
    MulGrows(k, e.blockSize);
    k * e.blockSize < end ==>
      var w := DeliveringChunk(e, total, rs, k);
      CountTrue(w) >= e.codec.dataBlocks && Served(e, total, end, Survivors(rs, w, e.codec.dataBlocks), k + 1)
  }

  lemma {:induction false} CountGathered(bufs: seq<Option<Shard>>, w: seq<bool>, m: nat)
    requires |bufs| == |w| && m <= |w| && forall i :: 0 <= i < |w| && i < m && w[i] ==> bufs[i].Some?
    ensures CountSome(bufs) >= CountTrue(w[..m])
  {
    if m > 0 {
      assert w[..m][1..] == w[1..][..m - 1];
      CountGathered(bufs[1..], w[1..], m - 1);
    }
  }

  /** What a successful Read gathers decodes to the data shards of the block. */
  lemma GatheredDecodes(e: Erasure, data: seq<byte>, rs: seq<Slot>, k: nat)
    requires e.Valid() && |rs| == e.codec.Total() && k < |Blocks(data, e.blockSize)|
    requires HonestDisks(e, data, rs) && k * e.blockSize < |data|
    requires CountTrue(DeliveringChunk(e, |data|, rs, k)) >= e.codec.dataBlocks
    ensures e.ShardSize() > 0 && k * e.ShardSize() >= 0 && e.ChunkLen(|data|, k) > 0
    ensures var bufs := Gathered(rs, e.ShardSize(), DeliveringChunk(e, |data|, rs, k), e.codec.dataBlocks,
                                 k * e.ShardSize(), e.ChunkLen(|data|, k));
            e.codec.DecodeDataBlocks(bufs) == Some(Split(Blocks(data, e.blockSize)[k], e.codec.dataBlocks))
  {
    e.ShardSizePositive();
    e.ChunkExtent(|data|, k);
    MulMono(0, k, e.ShardSize());
    var w, d, n := DeliveringChunk(e, |data|, rs, k), e.codec.dataBlocks, e.ChunkLen(|data|, k);
    var bufs, block := Gathered(rs, e.ShardSize(), w, d, k * e.ShardSize(), n), Blocks(data, e.blockSize)[k];
    e.codec.EncodeShape(block);
    BlockLen(data, e.blockSize, k);
    forall i | 0 <= i < |bufs| && bufs[i].Some? ensures bufs[i].value == e.codec.EncodeData(block)[i] {
      ShardChunkLen(e, data, i, k);
      assert ShardChunks(e.codec, data, e.blockSize, i)[k] == e.codec.EncodeData(block)[i];
    }
    CountGathered(bufs, w, TryCount(w, d));
    TriedEnough(w, d);
    e.codec.DecodesAnyQuorum(block, bufs);
  }

  /** A range inside block k of the joined data shards is that range of the object, never padding. */
  lemma ShardsHoldBlock(data: seq<byte>, size: nat, k: nat, d: nat, bo: nat, bl: nat)
    requires size > 0 && d > 0 && k < |Blocks(data, size)|
    requires k * size + bo + bl <= |data| && bo + bl <= size
    ensures k * size >= 0
    ensures |Flatten(Split(Blocks(data, size)[k], d))| >= bl
    ensures Window(Flatten(Split(Blocks(data, size)[k], d)), bo, bl) == data[k * size + bo..k * size + bo + bl]
  {
    BlockAt(data, size, k);
    MulMono(0, k, size);
    var block, at := Blocks(data, size)[k], k * size;
    SplitJoins(block, d);
    var all := Flatten(Split(block, d));
    assert bo + bl <= |block|;
    assert block <= all;
    WindowInPrefix(block, all, bo, bl);
    SliceOfSlice(data, at, at + |block|, bo, bo + bl);
  }

  lemma MoreFollows(e: Erasure, total: nat, k: nat)
    requires e.Valid() && (k + 1) * e.blockSize < total
    ensures k * e.ShardSize() + e.ShardSize() < e.ShardFileSize(total)
  {
    e.ChunkExtent(total, k + 1);
    MulSucc(k, e.ShardSize());
  }

  lemma NextSizeIsChunkLen(e: Erasure, total: nat, k: nat)
    requires e.Valid() && k * e.blockSize < total
    ensures var S, F := e.ShardSize(), e.ShardFileSize(total);
            && e.ChunkLen(total, k) == (if k * S + S > F then F - k * S else S) > 0
            && ((k + 1) * e.blockSize < total ==> e.ChunkLen(total, k) == S && k * S + S < F)
  {
    e.ShardSizePositive();
    e.ChunkExtent(total, k);
    if (k + 1) * e.blockSize < total {
      MoreFollows(e, total, k);
    }
  }

  /** The reader serves chunk k of `data`, stored with geometry e, from honest disks. */
  ghost predicate Reading(e: Erasure, data: seq<byte>, reader: ParallelReader, k: nat)
    requires e.Valid()
    reads reader, reader.readers, Objects(reader.readers[..])
  {
    && reader.dataBlocks == e.codec.dataBlocks && reader.shardFileSize == e.ShardFileSize(|data|)
    && reader.readers.Length == e.codec.Total()
    && HonestDisks(e, data, reader.readers[..])
    && reader.AtChunk(e.ShardSize(), k)
  }

  lemma SurvivorsHonest(e: Erasure, data: seq<byte>, rs: seq<Slot>, w: seq<bool>, d: nat)
    requires e.Valid() && |rs| == e.codec.Total() == |w| && HonestDisks(e, data, rs)
    ensures HonestDisks(e, data, Survivors(rs, w, d))
  {
  }

  lemma HonestConfigured(e: Erasure, data: seq<byte>, rs: seq<Slot>)
    requires e.Valid() && |rs| == e.codec.Total() && HonestDisks(e, data, rs)
    ensures Configured(rs, e.ShardSize())
  {
  }

  /** Read chunk k from dataBlocks disks and rebuild the data shards of block k. */
  method ReadBlock(e: Erasure, reader: ParallelReader, ghost k: nat, ghost data: seq<byte>) returns (r: Option<seq<Shard>>)
    requires e.Valid() && Reading(e, data, reader, k) && k < |Blocks(data, e.blockSize)| && k * e.blockSize < |data|
    modifies reader, reader.readers, Objects(reader.readers[..])
    ensures HonestDisks(e, data, reader.readers[..]) && Configured(old(reader.readers[..]), e.ShardSize())
    ensures var w := DeliveringChunk(e, |data|, old(reader.readers[..]), k);
            && reader.readers[..] == Survivors(old(reader.readers[..]), w, e.codec.dataBlocks)
            && (r.Some? <==> CountTrue(w) >= e.codec.dataBlocks)
    ensures r.Some? ==> r.value == Split(Blocks(data, e.blockSize)[k], e.codec.dataBlocks)
    ensures r.Some? && (k + 1) * e.blockSize < |data| ==> Reading(e, data, reader, k + 1)
    ensures forall i :: 0 <= i < reader.readers.Length && old(reader.readers[i]) != null ==>
              old(reader.readers[i]).unexpected == old(reader.readers[i].unexpected)
  {
    ghost var rs := reader.readers[..];
    HonestConfigured(e, data, rs);
    NextSizeIsChunkLen(e, |data|, k);
    SurvivorsHonest(e, data, rs, DeliveringChunk(e, |data|, rs, k), e.codec.dataBlocks);
    var bufs := reader.Read(e.ShardSize(), k);
    if bufs.None? {
      return None;
    }
    GatheredDecodes(e, data, rs, k);
    r := e.codec.DecodeDataBlocks(bufs.value);
  }

  /** Body of Decode's loop for a block with something to write: read, rebuild, write the piece. */
  method DecodeBlock(e: Erasure, dst: Sink, reader: ParallelReader, k: nat, blockOffset: nat, blockLength: nat,
                     ghost data: seq<byte>, ghost piece: seq<byte>) returns (n: nat, err: DecodeError)
    requires e.Valid() && Reading(e, data, reader, k) && dst.Valid() && k < |Blocks(data, e.blockSize)|
    requires 0 <= k * e.blockSize < |data|
    requires blockOffset + blockLength <= e.blockSize && k * e.blockSize + blockOffset + blockLength <= |data|
    requires piece == data[k * e.blockSize + blockOffset..k * e.blockSize + blockOffset + blockLength]
    modifies dst, reader, reader.readers, Objects(reader.readers[..])
    ensures dst.Valid() && HonestDisks(e, data, reader.readers[..]) && Configured(old(reader.readers[..]), e.ShardSize())
    ensures var w := DeliveringChunk(e, |data|, old(reader.readers[..]), k);
            && reader.readers[..] == Survivors(old(reader.readers[..]), w, e.codec.dataBlocks)
            && (err == ReadQuorum <==> CountTrue(w) < e.codec.dataBlocks)
    ensures err == NoError || err == ReadQuorum || err == WriteFailed(Broken)
    ensures err == ReadQuorum ==> dst.data == old(dst.data)
    ensures err != ReadQuorum ==> dst.data == dst.Clip(old(dst.data) + piece)
    ensures err == NoError ==> dst.Fits(old(dst.data) + piece) && n == blockLength
    ensures err == WriteFailed(Broken) ==> !dst.Fits(old(dst.data) + piece)
    ensures err == NoError && (k + 1) * e.blockSize < |data| ==> Reading(e, data, reader, k + 1)
    ensures forall i :: 0 <= i < reader.readers.Length && old(reader.readers[i]) != null ==>
              old(reader.readers[i]).unexpected == old(reader.readers[i].unexpected)
  {
    var shards := ReadBlock(e, reader, k, data);
    if shards.None? {
      return 0, ReadQuorum;
    }
    var d, werr := e.codec.dataBlocks, Written;
    ShardsHoldBlock(data, e.blockSize, k, d, blockOffset, blockLength);
    SplitShape(Blocks(data, e.blockSize)[k], d);
    assert shards.value[..d] == shards.value;
    n, werr := WriteDataBlocks(dst, shards.value, d, blockOffset, blockLength);
    assert Window(Flatten(shards.value[..d]), blockOffset, blockLength) == piece;
    err := if werr != Written then WriteFailed(werr) else NoError;
  }

  /** Where the range stands before block k: at its start, at the block's start, or at its end. */
  function Position(e: Erasure, offset: nat, length: nat, k: nat): (p: nat)
    ensures offset <= p <= offset + length
  {
    Clamp(k * e.blockSize, offset, offset + length)
  }

  /** The disks in use at block k decide about the rest of the range as those at block k0 did about the whole. */
  ghost predicate SameFate(e: Erasure, total: nat, end: nat, rs0: seq<Slot>, k0: nat, rs: seq<Slot>, k: nat)
    requires e.Valid() && end <= total && Configured(rs0, e.ShardSize())
  {
    && Configured(rs, e.ShardSize()) && Objects(rs) <= Objects(rs0)
    && (Served(e, total, end, rs0, k0) <==> Served(e, total, end, rs, k))
  }

  /** Honest disks, ready for block k if the range up to byte `end` reaches it. */
  ghost predicate Ready(e: Erasure, data: seq<byte>, reader: ParallelReader, end: nat, k: nat)
    requires e.Valid()
    reads reader, reader.readers, Objects(reader.readers[..])
  {
    && reader.readers.Length == e.codec.Total() && HonestDisks(e, data, reader.readers[..])
    && (k * e.blockSize < end ==> Reading(e, data, reader, k))
  }

  /** The read quorum is blamed only if a block was not served, the destination only if it is full. */
  ghost predicate Blamed(err: DecodeError, served: bool, dst: Sink, all: seq<byte>)
    reads dst
  {
    if err == ReadQuorum then !served else !dst.Fits(all) && dst.data == dst.Clip(all)
  }

  /** Everything before block k was delivered, and the disks are ready for the rest. */
  ghost predicate Decoding(e: Erasure, dst: Sink, reader: ParallelReader, offset: nat, length: nat, data: seq<byte>,
                           d0: seq<byte>, rs0: seq<Slot>, k0: nat, k: nat)
    requires e.Valid() && offset + length <= |data| && Configured(rs0, e.ShardSize())
    reads dst, reader, reader.readers, Objects(reader.readers[..])
  {
    && dst.Valid() && dst.data == d0 + data[offset..Position(e, offset, length, k)]
    && Ready(e, data, reader, offset + length, k)
    && SameFate(e, |data|, offset + length, rs0, k0, reader.readers[..], k)
  }

  /** Behind the range nothing more is to be served. */
  lemma {:induction false} ServedBehind(e: Erasure, total: nat, offset: nat, length: nat, rs: seq<Slot>, k: nat)
    requires e.Valid() && offset + length <= total && Configured(rs, e.ShardSize()) && length > 0
    requires Position(e, offset, length, k) == offset + length
    ensures Served(e, total, offset + length, rs, k)
  {
  }

  /** One round of Decode's loop for a block that holds part of the range. */
  method DecodeRound(e: Erasure, dst: Sink, reader: ParallelReader, k: nat, offset: nat, length: nat,
                     ghost data: seq<byte>, ghost d0: seq<byte>, ghost rs0: seq<Slot>, ghost k0: nat)
    returns (n: nat, err: DecodeError)
    requires e.Valid() && offset + length <= |data| && Configured(rs0, e.ShardSize())
    requires offset / e.blockSize <= k <= (offset + length) / e.blockSize
    requires BlockLength(offset, length, e.blockSize, k) > 0
    requires Decoding(e, dst, reader, offset, length, data, d0, rs0, k0, k)
    modifies dst, reader, reader.readers, Objects(reader.readers[..])
    ensures dst.Valid()
    ensures err == NoError ==>
              && n == BlockLength(offset, length, e.blockSize, k)
              && Decoding(e, dst, reader, offset, length, data, d0, rs0, k0, k + 1)
    ensures err != NoError ==>
              && d0 <= dst.data <= d0 + data[offset..offset + length]
              && (err == ReadQuorum || err == WriteFailed(Broken))
              && Blamed(err, Served(e, |data|, offset + length, rs0, k0), dst, d0 + data[offset..offset + length])
    ensures old(AsExpected(rs0)) ==> AsExpected(rs0)
  {
    var bo, bl := BlockOffset(offset, length, e.blockSize, k), BlockLength(offset, length, e.blockSize, k);
    RoundFacts(e, data, offset, length, k);
    ghost var p, q := Position(e, offset, length, k), Position(e, offset, length, k + 1);
    Pieces(dst, d0, data, offset, p, q, offset + length);
    ServedStep(e, |data|, offset + length, reader.readers[..], k);
    ghost var live := reader.readers[..];
    n, err := DecodeBlock(e, dst, reader, k, bo, bl, data, data[p..q]);
    forall i | 0 <= i < |rs0| && rs0[i] != null ensures rs0[i].unexpected == old(rs0[i].unexpected) {
      if rs0[i] in Objects(live) {
        var m :| 0 <= m < |live| && live[m] == rs0[i];
      }
    }
  }

  lemma RoundFacts(e: Erasure, data: seq<byte>, offset: nat, length: nat, k: nat)
    requires e.Valid() && offset + length <= |data|
    requires offset / e.blockSize <= k <= (offset + length) / e.blockSize
    requires BlockLength(offset, length, e.blockSize, k) > 0
    ensures k < |Blocks(data, e.blockSize)| && 0 <= k * e.blockSize < offset + length
    ensures var bo, bl := BlockOffset(offset, length, e.blockSize, k), BlockLength(offset, length, e.blockSize, k);
            && bo + bl <= e.blockSize
            && k * e.blockSize + bo == Position(e, offset, length, k)
            && k * e.blockSize + bo + bl == Position(e, offset, length, k + 1)
  {
    WalkPiece(offset, length, e.blockSize, k);
    BlockExists(data, e.blockSize, k);
  }

  lemma ServedStep(e: Erasure, total: nat, end: nat, rs: seq<Slot>, k: nat)
    requires e.Valid() && Configured(rs, e.ShardSize()) && end <= total && k * e.blockSize < end
    ensures var w := DeliveringChunk(e, total, rs, k);
            && Configured(Survivors(rs, w, e.codec.dataBlocks), e.ShardSize())
            && Objects(Survivors(rs, w, e.codec.dataBlocks)) <= Objects(rs)
            && (Served(e, total, end, rs, k) <==>
                CountTrue(w) >= e.codec.dataBlocks && Served(e, total, end, Survivors(rs, w, e.codec.dataBlocks), k + 1))
  {
  }

  lemma Pieces(dst: Sink, d0: seq<byte>, data: seq<byte>, a: nat, p: nat, q: nat, b: nat)
    requires a <= p <= q <= b <= |data|
    ensures d0 + data[a..p] + data[p..q] == d0 + data[a..q]
    ensures d0 <= d0 + data[a..p] <= d0 + data[a..b]
    ensures dst.Fits(d0 + data[a..p]) ==> d0 <= dst.Clip(d0 + data[a..q]) <= d0 + data[a..b]
    ensures !dst.Fits(d0 + data[a..q]) ==> !dst.Fits(d0 + data[a..b])
  {
    assert data[a..p] + data[p..q] == data[a..q];
    assert data[a..q] + data[q..b] == data[a..b];
    assert data[a..p] + data[p..b] == data[a..b];
    assert d0 + data[a..b] == d0 + data[a..q] + data[q..b];
    assert d0 + data[a..b] == d0 + data[a..p] + data[p..b];
    assert d0 + data[a..q] == d0 + data[a..p] + data[p..q];
    if dst.Fits(d0 + data[a..p]) && !dst.Fits(d0 + data[a..q]) {
      assert d0 <= (d0 + data[a..q])[..dst.limit.value];
      assert (d0 + data[a..q])[..dst.limit.value] <= d0 + data[a..b];
    }
  }

  /** Readers as newly made: no stream open. */
  ghost predicate Unopened(rs: seq<Slot>)
    reads Objects(rs)
  {
    forall i :: 0 <= i < |rs| && rs[i] != null ==> rs[i].rc.None? && !rs[i].unexpected
  }

  /** No reader was called misaligned or out of order. */
  ghost predicate AsExpected(rs: seq<Slot>)
    reads Objects(rs)
  {
    forall i :: 0 <= i < |rs| && rs[i] != null ==> !rs[i].unexpected
  }

  /**
   * `Erasure.Decode`. Arguments outside the object are refused. Otherwise, whatever fails and whenever, the bytes
   * written are a prefix of data[offset..offset + length); Decode succeeds exactly when every block found
   * dataBlocks disks and the destination took everything, and then it wrote exactly the range. No reader is
   * ever called at an offset it does not expect.
   */
  method Decode(e: Erasure, dst: Sink, readers: array<Slot>, offset: int, length: int, totalLength: int, ghost data: seq<byte>)
    returns (err: DecodeError)
    requires e.Valid() && |data| == totalLength && dst.Valid()
    requires readers.Length == e.codec.Total() && Distinct(readers[..]) && HonestDisks(e, data, readers[..])
    requires Unopened(readers[..])
    modifies dst, readers, Objects(readers[..])
    ensures Configured(old(readers[..]), e.ShardSize())
    ensures err == InvalidArgument <==> offset < 0 || length < 0 || offset + length > totalLength
    ensures err == InvalidArgument ==> dst.data == old(dst.data)
    ensures err != InvalidArgument ==>
              var want := data[offset..offset + length];
              && old(dst.data) <= dst.data <= old(dst.data) + want
              && (err == NoError ==> dst.data == old(dst.data) + want)
              && (err == NoError <==>
                    length == 0 || (Served(e, totalLength, offset + length, old(readers[..]), e.BlockOf(offset))
                                    && dst.Fits(old(dst.data) + want)))
    ensures err != InvalidArgument && err != NoError ==>
              && (err == ReadQuorum || err == WriteFailed(Broken))
              && Blamed(err, Served(e, totalLength, offset + length, old(readers[..]), e.BlockOf(offset)),
                        dst, old(dst.data) + data[offset..offset + length])
    ensures AsExpected(old(readers[..]))
  {
    HonestConfigured(e, data, readers[..]);
    if offset < 0 || length < 0 {
      return InvalidArgument;
    }
    if offset + length > totalLength {
      return InvalidArgument;
    }
    if length == 0 {
      return NoError;
    }
    err := DecodeRange(e, dst, readers, offset, length, totalLength, data);
  }

  method DecodeRange(e: Erasure, dst: Sink, readers: array<Slot>, offset: nat, length: nat, totalLength: nat,
                     ghost data: seq<byte>) returns (err: DecodeError)
    requires e.Valid() && |data| == totalLength && offset + length <= |data| && length > 0 && dst.Valid()
    requires readers.Length == e.codec.Total() && Distinct(readers[..]) && HonestDisks(e, data, readers[..])
    requires Configured(readers[..], e.ShardSize())
    requires Unopened(readers[..])
    modifies dst, readers, Objects(readers[..])
    ensures var want := data[offset..offset + length];
            && old(dst.data) <= dst.data <= old(dst.data) + want
            && (err == NoError ==> dst.data == old(dst.data) + want)
            && (err == NoError <==>
                  Served(e, |data|, offset + length, old(readers[..]), e.BlockOf(offset)) && dst.Fits(old(dst.data) + want))
    ensures err == NoError || err == ReadQuorum || err == WriteFailed(Broken)
    ensures err != NoError ==>
              Blamed(err, Served(e, |data|, offset + length, old(readers[..]), e.BlockOf(offset)),
                     dst, old(dst.data) + data[offset..offset + length])
    ensures AsExpected(old(readers[..]))
  {
    var reader := new ParallelReader(readers, e, offset, totalLength);
    StartsReady(e, data, reader, offset, offset + length);
    err := DecodeBlocks(e, dst, reader, offset, length, data);
  }

  /** Decode's loop over the blocks of the range. */
  method DecodeBlocks(e: Erasure, dst: Sink, reader: ParallelReader, offset: nat, length: nat, ghost data: seq<byte>)
    returns (err: DecodeError)
    requires e.Valid() && offset + length <= |data| && length > 0 && dst.Valid()
    requires Ready(e, data, reader, offset + length, e.BlockOf(offset))
    requires Configured(reader.readers[..], e.ShardSize()) && AsExpected(reader.readers[..])
    modifies dst, reader, reader.readers, Objects(reader.readers[..])
    ensures var want := data[offset..offset + length];
            && old(dst.data) <= dst.data <= old(dst.data) + want
            && (err == NoError ==> dst.data == old(dst.data) + want)
            && (err == NoError <==>
                  Served(e, |data|, offset + length, old(reader.readers[..]), e.BlockOf(offset))
                  && dst.Fits(old(dst.data) + want))
    ensures err == NoError || err == ReadQuorum || err == WriteFailed(Broken)
    ensures err != NoError ==>
              Blamed(err, Served(e, |data|, offset + length, old(reader.readers[..]), e.BlockOf(offset)),
                     dst, old(dst.data) + data[offset..offset + length])
    ensures AsExpected(old(reader.readers[..]))
  {
    ghost var rs0, d0, k0 := reader.readers[..], dst.data, e.BlockOf(offset);
    WalkEnds(offset, length, e.blockSize);
    assert d0 == d0 + data[offset..offset];
    var bytesWritten;
    bytesWritten, err := DecodeLoop(e, dst, reader, offset, length, data, d0, rs0, k0);
    if err != NoError {
      return;
    }
    if bytesWritten != length {
      return LessData;
    }
  }

  method DecodeLoop(e: Erasure, dst: Sink, reader: ParallelReader, offset: nat, length: nat, ghost data: seq<byte>,
                    ghost d0: seq<byte>, ghost rs0: seq<Slot>, ghost k0: nat) returns (bytesWritten: nat, err: DecodeError)
    requires e.Valid() && offset + length <= |data| && length > 0 && Configured(rs0, e.ShardSize())
    requires k0 == offset / e.blockSize <= (offset + length) / e.blockSize && Position(e, offset, length, k0) == offset
    requires Decoding(e, dst, reader, offset, length, data, d0, rs0, k0, k0)
    requires rs0 == reader.readers[..] && AsExpected(rs0)
    modifies dst, reader, reader.readers, Objects(reader.readers[..])
    ensures err == NoError ==>
              && dst.Valid() && dst.data == d0 + data[offset..offset + length] && bytesWritten == length
              && Served(e, |data|, offset + length, rs0, k0)
    ensures err != NoError ==>
              && d0 <= dst.data <= d0 + data[offset..offset + length]
              && (err == ReadQuorum || err == WriteFailed(Broken))
              && Blamed(err, Served(e, |data|, offset + length, rs0, k0), dst, d0 + data[offset..offset + length])
    ensures AsExpected(rs0)
  {
    bytesWritten, err := 0, NoError;
    var block, endBlock := offset / e.blockSize, (offset + length) / e.blockSize;
    while block <= endBlock
      invariant k0 <= block <= endBlock + 1 && err == NoError
      invariant Decoding(e, dst, reader, offset, length, data, d0, rs0, k0, block)
      invariant bytesWritten == Position(e, offset, length, block) - offset
      invariant AsExpected(rs0)
    {
      WalkPiece(offset, length, e.blockSize, block);
      if BlockLength(offset, length, e.blockSize, block) == 0 {
        break;
      }
      var n;
      n, err := DecodeRound(e, dst, reader, block, offset, length, data, d0, rs0, k0);
      if err != NoError {
        return;
      }
      bytesWritten := bytesWritten + n;
      block := block + 1;
    }
    WalkEnds(offset, length, e.blockSize);
    ServedBehind(e, |data|, offset, length, reader.readers[..], block);
  }

  /** A new parallel reader stands at the block that holds `offset`. */
  lemma StartsReady(e: Erasure, data: seq<byte>, reader: ParallelReader, offset: nat, end: nat)
    requires e.Valid() && offset < end <= |data|
    requires reader.readers.Length == e.codec.Total() && Distinct(reader.readers[..]) && HonestDisks(e, data, reader.readers[..])
    requires Unopened(reader.readers[..])
    requires reader.dataBlocks == e.codec.dataBlocks && reader.shardFileSize == e.ShardFileSize(|data|)
    requires reader.offset == e.BlockOf(offset) * e.ShardSize() && reader.shardSize == e.ShardSize()
    ensures Ready(e, data, reader, end, e.BlockOf(offset))
  {
    var k := e.BlockOf(offset);
    e.ShardSizePositive();
    NextSizeIsChunkLen(e, |data|, k);
    HonestConfigured(e, data, reader.readers[..]);
    forall i | 0 <= i < reader.readers.Length
      ensures InStepAt(reader.readers[..], reader.dataBlocks, reader.offset, i)
    {
    }
  }

  // ---- which disks suffice, and why the schedule does not matter ----

  /** Disk i delivers every chunk of blocks k.. that the object up to byte `end` needs. */
  ghost predicate Steadfast(e: Erasure, total: nat, end: nat, r: Slot, k: nat)
    requires e.Valid() && end <= total
  {
    e.ShardSizePositive();
    && r != null && r.shardSize == e.ShardSize() && r.h.Valid()
    && forall j: nat {:trigger DeliveringChunk(e, total, [r], j)} ::
         k <= j && j * e.blockSize < end ==> DeliveringChunk(e, total, [r], j)[0]
  }

  /** If dataBlocks disks work throughout the range, Decode is served, whatever the others do and whenever. */
  lemma {:induction false} SteadfastServe(e: Erasure, total: nat, end: nat, rs: seq<Slot>, k: nat, good: seq<bool>)
    requires e.Valid() && end <= total && Configured(rs, e.ShardSize())
    requires |good| == |rs| && CountTrue(good) >= e.codec.dataBlocks
    requires forall i :: 0 <= i < |rs| && good[i] ==> Steadfast(e, total, end, rs[i], k)
    ensures Served(e, total, end, rs, k)
    decreases end - k
  {
    MulGrows(k, e.blockSize);
    if k * e.blockSize < end {
      var w, d := DeliveringChunk(e, total, rs, k), e.codec.dataBlocks;
      var rs' := Survivors(rs, w, d);
      forall i | 0 <= i < |rs| && good[i] ensures w[i] && Steadfast(e, total, end, rs'[i], k + 1) {
        assert Steadfast(e, total, end, rs[i], k);
        assert DeliveringChunk(e, total, [rs[i]], k)[0];
      }
      CountMono(good, w);
      ServedStep(e, total, end, rs, k);
      SteadfastServe(e, total, end, rs', k + 1, good);
    }
  }

  /**
   * The sequential Read above and every interleaving of the concurrent one agree: on success or failure, on the
   * buffers filled and on the disks dropped.
   */
  lemma ScheduleDoesNotMatter(rs: seq<Slot>, S: nat, d: nat, offset: nat, n: nat, run: seq<State>)
    requires S > 0 && Configured(rs, S) && 0 < d <= |rs|
    requires IsRun(Delivering(rs, S, offset, n), d, run) && run[|run| - 1].main.Returned?
    ensures var w, s := Delivering(rs, S, offset, n), run[|run| - 1];
            && |s.ph| == |rs|
            && s.main.ok == (CountTrue(w) >= d)
            && forall i :: 0 <= i < |rs| ==>
                 && (s.ph[i] == DoneOk <==> Gathered(rs, S, w, d, offset, n)[i].Some?)
                 && Survivors(rs, w, d)[i] == (if s.ph[i] == DoneFail then null else rs[i])
  {
    EveryInterleaving(Delivering(rs, S, offset, n), d, run);
  }
}
