/** Decode over what Encode stored, and Heal: Decode piped into Encode. */
module ErasureHeal {
  import opened Bytes
  import opened ErasureCode
  import opened Geometry
  import opened BitrotStream
  import opened ParallelRead
  import opened DataBlocks
  import opened Streams
  import Pipe = HealPipe
  import Enc = ErasureEncode
  import Dec = ErasureDecode

  // ---- round trip ----

  /** A reader over an undamaged, working copy of shard i, opened for the range [offset, offset + length). */
  ghost predicate Undamaged(e: Erasure, h: Hash, data: seq<byte>, offset: nat, length: nat, i: nat, r: StreamingBitrotReader)
    requires e.Valid() && i < e.codec.Total()
  {
    && r.h == h && r.shardSize == e.ShardSize()
    && r.disk.file == StreamOf(h, ShardChunks(e.codec, data, e.blockSize, i))
    && (forall o :: !r.disk.fault(o))
    && var till := e.ShardFileTillOffset(offset, length, |data|);
       r.tillOffset == CeilFrac(till, e.ShardSize()) * h.size + till
  }

  lemma {:induction false} UndamagedHonest(e: Erasure, h: Hash, data: seq<byte>, offset: nat, length: nat, i: nat, r: StreamingBitrotReader)
    requires e.Valid() && h.Valid() && i < e.codec.Total() && Undamaged(e, h, data, offset, length, i, r)
    ensures e.ShardSize() > 0 && r.Honest(ShardChunks(e.codec, data, e.blockSize, i))
  {
    ShardChunksShape(e, data, i);
    var cs := ShardChunks(e.codec, data, e.blockSize, i);
    forall k | 0 <= k < |cs| && r.Works(k * r.shardSize, |cs[k]|)
      ensures r.Payload(k * r.shardSize, |cs[k]|) == cs[k]
    {
      r.UndamagedServes(cs, k);
    }
  }

  /** The window opened for the range covers every chunk Decode asks for. */
  lemma {:induction false} UndamagedSteadfast(e: Erasure, h: Hash, data: seq<byte>, offset: nat, length: nat, i: nat, r: StreamingBitrotReader)
    requires e.Valid() && h.Valid() && i < e.codec.Total() && offset + length <= |data|
    requires Undamaged(e, h, data, offset, length, i, r)
    ensures Dec.Steadfast(e, |data|, offset + length, r, 0)
  {
    e.ShardSizePositive();
    forall j: nat | j * e.blockSize < offset + length ensures Dec.DeliveringChunk(e, |data|, [r], j)[0] {
      UndamagedDelivers(e, h, data, offset, length, i, r, j);
    }
  }

  lemma {:induction false} UndamagedDelivers(e: Erasure, h: Hash, data: seq<byte>, offset: nat, length: nat, i: nat,
                          r: StreamingBitrotReader, j: nat)
    requires e.Valid() && h.Valid() && i < e.codec.Total() && offset + length <= |data|
    requires Undamaged(e, h, data, offset, length, i, r) && j * e.blockSize < offset + length
    ensures Dec.Configured([r], e.ShardSize()) && Dec.DeliveringChunk(e, |data|, [r], j)[0]
  {
    BlockExists(data, e.blockSize, j);
    var chunk := ShardChunks(e.codec, data, e.blockSize, i)[j];
    ShardChunkLen(e, data, i, j);
    UndamagedWorks(e, h, data, offset, length, i, r, j, chunk);
  }

  lemma {:induction false} UndamagedWorks(e: Erasure, h: Hash, data: seq<byte>, offset: nat, length: nat, i: nat,
                       r: StreamingBitrotReader, j: nat, chunk: Shard)
    requires e.Valid() && h.Valid() && i < e.codec.Total() && offset + length <= |data|
    requires Undamaged(e, h, data, offset, length, i, r) && j * e.blockSize < offset + length
    requires j < |Blocks(data, e.blockSize)| && chunk == ShardChunks(e.codec, data, e.blockSize, i)[j]
    requires |chunk| == e.ChunkLen(|data|, j)
    ensures r.shardSize > 0 && j * r.shardSize >= 0 && r.Works(j * r.shardSize, |chunk|)
  {
    TillSuffices(e, h, data, offset, length, i, r, j);
    ShardChunksShape(e, data, i);
    ChunkServed(r, ShardChunks(e.codec, data, e.blockSize, i), j);
  }

  lemma TillSuffices(e: Erasure, h: Hash, data: seq<byte>, offset: nat, length: nat, i: nat,
                     r: StreamingBitrotReader, j: nat)
    requires e.Valid() && h.Valid() && i < e.codec.Total() && offset + length <= |data|
    requires Undamaged(e, h, data, offset, length, i, r) && j * e.blockSize < offset + length
    ensures r.tillOffset >= j * (r.shardSize + r.h.size) + r.h.size + e.ChunkLen(|data|, j)
  {
    WindowCovers(e, h, data, offset, length, j);
  }

  lemma {:induction false} ChunkServed(r: StreamingBitrotReader, chunks: seq<Shard>, j: nat)
    requires r.h.Valid() && r.shardSize > 0 && Chunked(chunks, r.shardSize) && j < |chunks|
    requires r.disk.file == StreamOf(r.h, chunks) && forall o :: !r.disk.fault(o)
    requires r.tillOffset >= j * (r.shardSize + r.h.size) + r.h.size + |chunks[j]|
    ensures j * r.shardSize >= 0 && r.Works(j * r.shardSize, |chunks[j]|)
  {
    MulMono(0, j, r.shardSize);
    r.UndamagedServes(chunks, j);
  }

  /** Shards still stored and not lost since. */
  function Kept(ws: seq<Enc.Slot>, lost: seq<bool>): (k: seq<bool>)
    requires |lost| == |ws|
    ensures |k| == |ws|
  {
    seq(|ws|, i requires 0 <= i < |ws| => ws[i] != null && !lost[i])
  }

  /** Losing m of the stored shards leaves all but m of them. */
  lemma {:induction false} LossBound(ws: seq<Enc.Slot>, lost: seq<bool>)
    requires |lost| == |ws|
    ensures CountTrue(Kept(ws, lost)) >= Enc.CountLive(ws) - CountTrue(lost)
  {
    if ws != [] {
      assert Kept(ws, lost)[1..] == Kept(ws[1..], lost[1..]);
      LossBound(ws[1..], lost[1..]);
    }
  }

  /** r reads `file` from a working disk up to shard offset `till`; null stands for a lost shard. */
  ghost predicate Opened(h: Hash, S: nat, till: int, file: Option<seq<byte>>, r: Dec.Slot) {
    if file.None? then r == null else
    && r != null && r.h == h && r.shardSize == S
    && r.disk.file == file.value && (forall o :: !r.disk.fault(o))
    && r.tillOffset == CeilFrac(till, S) * h.size + till
  }

  /** Bitrot readers over shard files, as the object layer opens them up to shard offset `till`. */
  method OpenReaders(h: Hash, S: nat, till: int, files: seq<Option<seq<byte>>>) returns (readers: array<Dec.Slot>)
    ensures fresh(readers) && readers.Length == |files| && Dec.Distinct(readers[..]) && Dec.Unopened(readers[..])
    ensures fresh(Dec.Objects(readers[..]))
    ensures forall i :: 0 <= i < |files| ==> Opened(h, S, till, files[i], readers[i])
  {
    readers := new Dec.Slot[|files|](_ => null);
    ghost var made: set<StreamingBitrotReader> := {};
    for i := 0 to |files|
      invariant fresh(made) && forall j :: 0 <= j < |files| && readers[j] != null ==> readers[j] in made
      invariant forall j :: i <= j < |files| ==> readers[j] == null
      invariant forall j, k :: 0 <= j < k < i && readers[j] != null ==> readers[j] != readers[k]
      invariant forall j :: 0 <= j < i ==> Opened(h, S, till, files[j], readers[j])
      invariant Dec.Unopened(readers[..])
    {
      if files[i].Some? {
        var r := new StreamingBitrotReader(Disk(files[i].value, _ => false), till, h, S);
        readers[i], made := r, made + {r};
      }
    }
    assert Dec.Objects(readers[..]) <= made;
  }

  /** The readers of the shards kept, all undamaged. */
  ghost predicate KeptReaders(e: Erasure, h: Hash, data: seq<byte>, offset: nat, length: nat, kept: seq<bool>, rs: seq<Dec.Slot>)
    requires e.Valid()
  {
    && |kept| == |rs| == e.codec.Total()
    && (forall i :: 0 <= i < |rs| ==> (rs[i] != null <==> kept[i]))
    && forall i :: 0 <= i < |rs| && rs[i] != null ==> Undamaged(e, h, data, offset, length, i, rs[i])
  }

  /** Undamaged copies of at least dataBlocks shards: honest disks, and the range is served. */
  lemma {:induction false} KeptServe(e: Erasure, h: Hash, data: seq<byte>, offset: nat, length: nat, kept: seq<bool>, rs: seq<Dec.Slot>)
    requires e.Valid() && h.Valid() && offset + length <= |data|
    requires KeptReaders(e, h, data, offset, length, kept, rs) && CountTrue(kept) >= e.codec.dataBlocks
    ensures Dec.HonestDisks(e, data, rs) && Dec.Configured(rs, e.ShardSize())
    ensures Dec.Served(e, |data|, offset + length, rs, e.BlockOf(offset))
  {
    forall i | 0 <= i < |rs| && rs[i] != null
      ensures e.ShardSize() > 0 && rs[i].Honest(ShardChunks(e.codec, data, e.blockSize, i))
      ensures Dec.Steadfast(e, |data|, offset + length, rs[i], e.BlockOf(offset))
    {
      UndamagedHonest(e, h, data, offset, length, i, rs[i]);
      UndamagedSteadfast(e, h, data, offset, length, i, rs[i]);
    }
    Dec.SteadfastServe(e, |data|, offset + length, rs, e.BlockOf(offset), kept);
  }

  /** The buffer length callers choose: a full block, or everything at once when that is less. */
  predicate FittingBuffer(blockSize: nat, size: nat, bufLen: nat) {
    bufLen == blockSize || (size <= bufLen <= blockSize)
  }

  /** Encode to the writers, then lose some of the shards stored. */
  method StoreThenLose(e: Erasure, h: Hash, data: seq<byte>, writers: array<Enc.Slot>, bufLen: nat, quorum: int,
                       lost: seq<bool>) returns (stored: bool, files: seq<Option<seq<byte>>>)
    requires e.Valid() && h.Valid() && 0 < bufLen && FittingBuffer(e.blockSize, |data|, bufLen)
    requires writers.Length == e.codec.Total() && Enc.Distinct(writers[..]) && Enc.FreshWriters(h, writers[..])
    requires forall i :: 0 <= i < writers.Length && writers[i] != null ==> writers[i].file == []
    requires |lost| == writers.Length
    modifies writers, Enc.Objects(writers[..])
    ensures |files| == writers.Length
    ensures stored <==> Enc.CountLive(writers[..]) >= quorum
    ensures stored ==>
              forall i :: 0 <= i < |files| ==>
                (files[i].Some? <==> Kept(writers[..], lost)[i])
                && (files[i].Some? ==> files[i].value == StreamOf(h, ShardChunks(e.codec, data, e.blockSize, i)))
  {
    var src := new Source(data, Ends);
    ghost var ws, f0 := writers[..], Enc.Files(writers[..]);
    var total, werr, sent := Enc.Encode(e.codec, h, src, writers, bufLen, quorum);
    stored := werr == Enc.Nil;
    if !stored {
      return stored, seq(writers.Length, _ => None);
    }
    assert Blocks(data, bufLen)[..sent] == Blocks(data, bufLen);
    if bufLen != e.blockSize { BlocksOfSmall(data, bufLen, e.blockSize); }
    files := KeptFiles(e.codec, h, data, e.blockSize, ws, f0, writers, lost);
  }

  /** Decode from the shard files left, when dataBlocks of them are. */
  method ReadBack(e: Erasure, h: Hash, files: seq<Option<seq<byte>>>, offset: nat, length: nat, total: nat,
                  ghost data: seq<byte>, ghost kept: seq<bool>) returns (out: seq<byte>, err: Dec.DecodeError)
    requires e.Valid() && h.Valid() && |data| == total && offset + length <= total
    requires |kept| == |files| == e.codec.Total() && CountTrue(kept) >= e.codec.dataBlocks
    requires forall i :: 0 <= i < |files| ==>
               (files[i].Some? <==> kept[i])
               && (files[i].Some? ==> files[i].value == StreamOf(h, ShardChunks(e.codec, data, e.blockSize, i)))
    ensures err == Dec.NoError && out == data[offset..offset + length]
  {
    e.ShardSizePositive();
    var readers := OpenReaders(h, e.ShardSize(), e.ShardFileTillOffset(offset, length, total), files);
    assert forall i :: 0 <= i < |files| ==>
             Opened(h, e.ShardSize(), e.ShardFileTillOffset(offset, length, total), files[i], readers[..][i]);
    KeptServe(e, h, data, offset, length, kept, readers[..]);
    var dst := new Sink(None, true);
    err := Dec.Decode(e, dst, readers, offset, length, total, data);
    out := dst.data;
  }

  /**
   * Durability: once Encode succeeded with a write quorum of at least dataBlocks, any loss of up to
   * quorum - dataBlocks shards still leaves Decode returning exactly the bytes of any range asked for.
   */
  method StoreThenRead(e: Erasure, h: Hash, data: seq<byte>, writers: array<Enc.Slot>, bufLen: nat, quorum: int,
                       lost: seq<bool>, offset: nat, length: nat) returns (stored: bool, out: seq<byte>, err: Dec.DecodeError)
    requires e.Valid() && h.Valid() && 0 < bufLen && FittingBuffer(e.blockSize, |data|, bufLen)
    requires writers.Length == e.codec.Total() && Enc.Distinct(writers[..]) && Enc.FreshWriters(h, writers[..])
    requires forall i :: 0 <= i < writers.Length && writers[i] != null ==> writers[i].file == []
    requires |lost| == writers.Length && CountTrue(lost) <= quorum - e.codec.dataBlocks
    requires offset + length <= |data|
    modifies writers, Enc.Objects(writers[..])
    ensures stored <==> Enc.CountLive(writers[..]) >= quorum
    ensures stored ==> err == Dec.NoError && out == data[offset..offset + length]
  {
    var files;
    stored, files := StoreThenLose(e, h, data, writers, bufLen, quorum, lost);
    if !stored {
      return stored, [], Dec.NoError;
    }
    LossBound(writers[..], lost);
    out, err := ReadBack(e, h, files, offset, length, |data|, data, Kept(writers[..], lost));
  }

  method KeptFiles(c: Codec, ghost h: Hash, ghost data: seq<byte>, ghost blockSize: nat, ghost ws: seq<Enc.Slot>,
                   ghost f0: seq<seq<byte>>, writers: array<Enc.Slot>, lost: seq<bool>) returns (files: seq<Option<seq<byte>>>)
    requires c.Valid() && blockSize > 0 && writers.Length == c.Total() == |lost|
    requires Enc.Stored(c, h, ws, f0, writers[..], Blocks(data, blockSize))
    requires forall i :: 0 <= i < |ws| && ws[i] != null ==> f0[i] == []
    ensures |files| == writers.Length
    ensures forall i :: 0 <= i < |files| ==>
              (files[i].Some? <==> Kept(writers[..], lost)[i])
              && (files[i].Some? ==> files[i].value == StreamOf(h, ShardChunks(c, data, blockSize, i)))
  {
    ghost var want := seq(c.Total(), i requires 0 <= i < c.Total() => StreamOf(h, ShardChunks(c, data, blockSize, i)));
    forall i | 0 <= i < writers.Length && writers[i] != null ensures writers[i].file == want[i] {
      StoredFile(c, h, ws[i], f0[i], writers[i], Blocks(data, blockSize), i);
    }
    files := CollectFiles(writers, lost, want);
  }

  /** The files of the writers in use whose shards were not lost. */
  method CollectFiles(writers: array<Enc.Slot>, lost: seq<bool>, ghost want: seq<seq<byte>>) returns (files: seq<Option<seq<byte>>>)
    requires writers.Length == |lost| == |want|
    requires forall i :: 0 <= i < writers.Length && writers[i] != null ==> writers[i].file == want[i]
    ensures |files| == writers.Length
    ensures forall i :: 0 <= i < |files| ==> files[i] == if Kept(writers[..], lost)[i] then Some(want[i]) else None
  {
    files := [];
    for i := 0 to writers.Length
      invariant |files| == i
      invariant forall j :: 0 <= j < i ==> files[j] == if Kept(writers[..], lost)[j] then Some(want[j]) else None
    {
      files := files + [if writers[i] != null && !lost[i] then Some(writers[i].file) else None];
    }
  }

  lemma {:induction false} StoredFile(c: Codec, h: Hash, w: Enc.Slot, f0: seq<byte>, live: Enc.Slot, blocks: seq<seq<byte>>, i: nat)
    requires c.Valid() && i < c.Total() && Enc.StoredAt(c, h, w, f0, live, blocks, i) && (w != null ==> f0 == [])
    ensures live != null ==> live.file == StreamOf(h, ShardsOf(c, blocks, i))
  {
  }

  // ---- Heal ----

  /** Full blocks cut from a prefix of a stream are the stream's own first blocks. */
  lemma {:induction false} PrefixBlocks(p: seq<byte>, data: seq<byte>, n: nat, k: nat)
    requires n > 0 && p <= data && k <= |Blocks(p, n)| && Enc.AllFull(Blocks(p, n)[..k], n)
    ensures k <= |Blocks(data, n)| && Blocks(p, n)[..k] == Blocks(data, n)[..k]
    decreases k
  {
    if k > 0 {
      var bp := Blocks(p, n);
      assert bp[..k][0] == bp[0];
      assert |p| >= n;
      BlocksFirst(p, n);
      BlocksFirst(data, n);
      assert bp[1..] == Blocks(p[n..], n) && Blocks(data, n)[1..] == Blocks(data[n..], n);
      var rest := Blocks(p[n..], n)[..k - 1];
      forall j | 0 <= j < |rest| ensures |rest[j]| == n {
        assert rest[j] == bp[..k][j + 1];
      }
      PrefixBlocks(p[n..], data[n..], n, k - 1);
      assert p[..n] == data[..n];
      assert bp[..k] == [bp[0]] + Blocks(p[n..], n)[..k - 1];
      assert Blocks(data, n)[..k] == [Blocks(data, n)[0]] + Blocks(data[n..], n)[..k - 1];
    }
  }

  lemma StreamOfPrefix(c: Codec, h: Hash, blocks: seq<seq<byte>>, k: nat, i: nat)
    requires c.Valid() && i < c.Total() && k <= |blocks|
    ensures StreamOf(h, ShardsOf(c, blocks[..k], i)) <= StreamOf(h, ShardsOf(c, blocks, i))
  {
    assert ShardsOf(c, blocks, i) == ShardsOf(c, blocks[..k], i) + ShardsOf(c, blocks[k..], i);
    StreamConcat(h, ShardsOf(c, blocks[..k], i), ShardsOf(c, blocks[k..], i));
  }

  /** Writer w, starting from file f0, holds a prefix of what the original Encode stored for shard i, or all of it. */
  ghost predicate HealedAt(e: Erasure, h: Hash, data: seq<byte>, w: Enc.Slot, f0: seq<byte>, all: bool, i: nat)
    requires e.Valid() && i < e.codec.Total()
    reads w
  {
    w != null ==>
      var original := StreamOf(h, ShardChunks(e.codec, data, e.blockSize, i));
      f0 <= w.file <= f0 + original && (all ==> w.file == f0 + original)
  }

  lemma WithinPrefix(f0: seq<byte>, f: seq<byte>, part: seq<byte>, whole: seq<byte>)
    requires part <= whole && f0 <= f <= f0 + part
    ensures f <= f0 + whole
  {
    var rest := whole[|part|..];
    assert whole == part + rest;
    Enc.Extends(f0, f, part, rest);
  }

  lemma StoredHealed(e: Erasure, h: Hash, data: seq<byte>, k: nat, w: Enc.Slot, f0: seq<byte>, live: Enc.Slot, i: nat)
    requires e.Valid() && i < e.codec.Total() && k <= |Blocks(data, e.blockSize)|
    requires Enc.StoredAt(e.codec, h, w, f0, live, Blocks(data, e.blockSize)[..k], i)
    ensures HealedAt(e, h, data, w, f0, k == |Blocks(data, e.blockSize)| && live != null, i)
  {
    if w != null {
      var blocks := Blocks(data, e.blockSize);
      StreamOfPrefix(e.codec, h, blocks, k, i);
      var part, whole := StreamOf(h, ShardsOf(e.codec, blocks[..k], i)), StreamOf(h, ShardsOf(e.codec, blocks, i));
      WithinPrefix(f0, w.file, part, whole);
      if k == |blocks| { assert blocks[..k] == blocks; }
    }
  }

  /** The blocks Encode got to send are the object's own first blocks. */
  lemma SentBlocks(got: seq<byte>, failure: bool, data: seq<byte>, n: nat, sent: nat)
    requires n > 0 && got <= data && sent <= |Blocks(got, n)|
    requires if failure then Enc.AllFull(Blocks(got, n)[..sent], n) else got == data
    ensures sent <= |Blocks(data, n)| && Blocks(got, n)[..sent] == Blocks(data, n)[..sent]
  {
    if failure {
      PrefixBlocks(got, data, n, sent);
    }
  }

  lemma AllHealed(e: Erasure, h: Hash, data: seq<byte>, k: nat, ws: seq<Enc.Slot>, f0: seq<seq<byte>>, live: seq<Enc.Slot>)
    requires e.Valid() && k <= |Blocks(data, e.blockSize)|
    requires Enc.Stored(e.codec, h, ws, f0, live, Blocks(data, e.blockSize)[..k])
    ensures forall i :: 0 <= i < |ws| ==>
              HealedAt(e, h, data, ws[i], f0[i], k == |Blocks(data, e.blockSize)| && live[i] != null, i)
  {
    forall i | 0 <= i < |ws|
      ensures HealedAt(e, h, data, ws[i], f0[i], k == |Blocks(data, e.blockSize)| && live[i] != null, i)
    {
      assert Enc.StoredAt(e.codec, h, ws[i], f0[i], live[i], Blocks(data, e.blockSize)[..k], i);
      StoredHealed(e, h, data, k, ws[i], f0[i], live[i], i);
    }
  }

  /** The goroutine that decodes the whole object into the pipe. */
  method DecodeAll(e: Erasure, readers: array<Dec.Slot>, size: nat, ghost data: seq<byte>) returns (got: seq<byte>, ok: bool)
    requires e.Valid() && |data| == size
    requires readers.Length == e.codec.Total() && Dec.Distinct(readers[..])
    requires Dec.HonestDisks(e, data, readers[..]) && Dec.Unopened(readers[..])
    modifies readers, Dec.Objects(readers[..])
    ensures Dec.Configured(old(readers[..]), e.ShardSize())
    ensures got <= data && (ok ==> got == data)
    ensures ok <==> size == 0 || Dec.Served(e, size, size, old(readers[..]), 0)
    ensures Dec.AsExpected(old(readers[..]))
  {
    var w := new Sink(None, true);
    var err := Dec.Decode(e, w, readers, 0, size, size, data);
    assert data[0..0 + size] == data && [] + data == data;
    return w.data, err == Dec.NoError;
  }

  /** The encoder reading the other end of the pipe, with a quorum of one; `unread` if it leaves bytes in the pipe. */
  method EncodeAll(e: Erasure, ghost h: Hash, got: seq<byte>, ok: bool, writers: array<Enc.Slot>, ghost data: seq<byte>)
    returns (n: nat, err: Enc.Error, unread: bool)
    requires e.Valid() && h.Valid() && got <= data && (ok ==> got == data)
    requires writers.Length == e.codec.Total() && Enc.Distinct(writers[..]) && Enc.FreshWriters(h, writers[..])
    modifies writers, Enc.Objects(writers[..])
    ensures err == Enc.Nil <==> ok && Enc.CountLive(writers[..]) >= 1
    ensures err == Enc.Nil <==> ok && Enc.CountLive(Enc.LiveAfter(e.codec, old(writers[..]), Blocks(got, e.blockSize))) >= 1
    ensures unread <==> Enc.StopsEarly(e.codec, old(writers[..]), Blocks(got, e.blockSize), 1)
    ensures err == Enc.Nil ==> n == |data|
    ensures err == Enc.Nil || Enc.QuorumLost(err) || (err == Enc.SourceFailed && !ok)
    ensures Enc.QuorumLost(err) ==> Enc.CountLive(writers[..]) < 1
    ensures forall i :: 0 <= i < writers.Length ==>
              HealedAt(e, h, data, old(writers[i]), old(Enc.Files(writers[..]))[i], err == Enc.Nil && writers[i] != null, i)
  {
    ghost var ws, f0 := writers[..], Enc.Files(writers[..]);
    var r := new Source(got, if ok then Ends else Breaks);
    ghost var sent: nat;
    n, err, sent := Enc.Encode(e.codec, h, r, writers, e.blockSize, 1);
    unread := r.pos < |r.data|;
    SentBlocks(got, !ok, data, e.blockSize, sent);
    AllHealed(e, h, data, sent, ws, f0, writers[..]);
  }

  // ---- Heal in every interleaving ----

  /** The two goroutines of a Heal that decodes `got` and encodes it to the writers ws with a quorum of one. */
  ghost predicate PipeOf(j: Pipe.Job, e: Erasure, ws: seq<Enc.Slot>, got: seq<byte>, ok: bool)
    requires e.Valid()
  {
    && j.Valid() && j.stream == got && j.ok == ok && j.bufLen == e.blockSize
    && forall k: nat :: j.quorum(k) <==> Quorate(e, ws, Blocks(got, e.blockSize), k)
  }

  /** Some disk has taken its shards of the first k + 1 blocks. */
  ghost predicate Quorate(e: Erasure, ws: seq<Enc.Slot>, blocks: seq<seq<byte>>, k: nat)
    requires e.Valid()
  {
    Enc.CountLive(Enc.LiveAfter(e.codec, ws, blocks[..Min(k + 1, |blocks|)])) >= 1
  }

  lemma QuorateEarlier(e: Erasure, ws: seq<Enc.Slot>, blocks: seq<seq<byte>>, i: nat, k: nat)
    requires e.Valid() && i <= k && Quorate(e, ws, blocks, k)
    ensures Quorate(e, ws, blocks, i)
  {
    var a, b := Min(i + 1, |blocks|), Min(k + 1, |blocks|);
    Enc.LiveFewer(e.codec, ws, blocks[..b], a);
    assert blocks[..b][..a] == blocks[..a];
  }

  /** The blocks the pipe's conditions speak of. */
  lemma BlockCounts(data: seq<byte>, n: nat, i: nat)
    requires n > 0
    ensures i * n < |data| <==> i < |Blocks(data, n)|
  {
    if i * n < |data| { BlockExists(data, n, i); }
    if i < |Blocks(data, n)| { BlockAt(data, n, i); }
  }

  lemma AllQuorateIs(j: Pipe.Job, e: Erasure, ws: seq<Enc.Slot>, got: seq<byte>, ok: bool)
    requires e.Valid() && PipeOf(j, e, ws, got, ok)
    ensures Pipe.AllQuorate(j) <==> Enc.CountLive(Enc.LiveAfter(e.codec, ws, Blocks(got, e.blockSize))) >= 1
  {
    var blocks := Blocks(got, e.blockSize);
    var last := Max(0, |blocks| - 1);
    assert blocks[..Min(last + 1, |blocks|)] == blocks;
    BlockCounts(got, e.blockSize, last);
    if Quorate(e, ws, blocks, last) {
      forall i: nat | i == 0 || i * j.bufLen < |j.stream| ensures j.quorum(i) {
        BlockCounts(got, e.blockSize, i);
        QuorateEarlier(e, ws, blocks, i, last);
      }
    }
  }

  lemma LostEarlyIs(j: Pipe.Job, e: Erasure, ws: seq<Enc.Slot>, got: seq<byte>, ok: bool)
    requires e.Valid() && PipeOf(j, e, ws, got, ok)
    ensures Pipe.LostEarly(j) <==> Enc.StopsEarly(e.codec, ws, Blocks(got, e.blockSize), 1)
  {
    var blocks := Blocks(got, e.blockSize);
    if Pipe.LostEarly(j) {
      var i: nat :| !j.quorum(i) && (i + 1) * j.bufLen < |j.stream|;
      BlockCounts(got, e.blockSize, i + 1);
      if Quorate(e, ws, blocks, |blocks| - 2) { QuorateEarlier(e, ws, blocks, i, |blocks| - 2); }
    }
    if Enc.StopsEarly(e.codec, ws, blocks, 1) {
      BlockCounts(got, e.blockSize, |blocks| - 1);
      assert !j.quorum(|blocks| - 2) && (|blocks| - 2 + 1) * j.bufLen < |j.stream|;
    }
  }

  /**
   * However the two goroutines interleave and however the decoder cuts its bytes into writes: the encoder returns, with
   * success exactly if decoding succeeds and some disk takes all its shards, and the decoder is left in its write
   * exactly if no disk is left with blocks still to come. This is what `Heal` says of the one order it runs in.
   */
  lemma HealEveryInterleaving(e: Erasure, ws: seq<Enc.Slot>, got: seq<byte>, ok: bool, j: Pipe.Job, states: seq<Pipe.State>, steps: seq<Pipe.Step>)
    requires e.Valid() && PipeOf(j, e, ws, got, ok) && Pipe.IsRun(j, states, steps) && Pipe.Stuck(j, states[|steps|])
    ensures var s, blocks := states[|steps|], Blocks(got, e.blockSize);
            && s.encoder.Returned? && s.sent <= blocks
            && (s.encoder.err == Enc.Nil <==> ok && Enc.CountLive(Enc.LiveAfter(e.codec, ws, blocks)) >= 1)
            && (s.encoder.err == Enc.Nil ==> s.sent == blocks)
            && (Pipe.DecoderWaits(s) <==> Enc.StopsEarly(e.codec, ws, blocks, 1))
  {
    Pipe.HowItEnds(j, states, steps);
    AllQuorateIs(j, e, ws, got, ok);
    LostEarlyIs(j, e, ws, got, ok);
  }

  /**
   * `Erasure.Heal`: whatever fails, every writer holds a prefix of the shard stream the original Encode stored
   * with the same block size. Heal succeeds exactly when the object could be read and some writer is left, and
   * then every writer that did not fail holds that stream in full. `got` is what was decoded; the decoder is left
   * in its write, `stranded`, exactly if no disk takes all but the last of its blocks.
   */
  method Heal(e: Erasure, ghost h: Hash, readers: array<Dec.Slot>, writers: array<Enc.Slot>, size: nat, ghost data: seq<byte>)
    returns (err: Enc.Error, stranded: bool, ghost got: seq<byte>)
    requires e.Valid() && h.Valid() && |data| == size
    requires readers.Length == e.codec.Total() && Dec.Distinct(readers[..])
    requires Dec.HonestDisks(e, data, readers[..]) && Dec.Unopened(readers[..])
    requires writers.Length == e.codec.Total() && Enc.Distinct(writers[..]) && Enc.FreshWriters(h, writers[..])
    modifies readers, Dec.Objects(readers[..]), writers, Enc.Objects(writers[..])
    ensures Dec.Configured(old(readers[..]), e.ShardSize()) && got <= data
    ensures err == Enc.Nil <==>
              && (size == 0 || Dec.Served(e, size, size, old(readers[..]), 0))
              && Enc.CountLive(writers[..]) >= 1
    ensures err == Enc.Nil <==>
              && (size == 0 || Dec.Served(e, size, size, old(readers[..]), 0))
              && Enc.CountLive(Enc.LiveAfter(e.codec, old(writers[..]), Blocks(got, e.blockSize))) >= 1
    ensures err == Enc.Nil || Enc.QuorumLost(err)
            || (err == Enc.SourceFailed && size > 0 && !Dec.Served(e, size, size, old(readers[..]), 0))
    ensures Enc.QuorumLost(err) ==> Enc.CountLive(writers[..]) < 1
    ensures stranded <==> Enc.StopsEarly(e.codec, old(writers[..]), Blocks(got, e.blockSize), 1)
    ensures forall i :: 0 <= i < writers.Length ==>
              HealedAt(e, h, data, old(writers[i]), old(Enc.Files(writers[..]))[i], err == Enc.Nil && writers[i] != null, i)
    ensures Dec.AsExpected(old(readers[..]))
  {
    var bytes, ok := DecodeAll(e, readers, size, data);
    got := bytes;
    var n;
    n, err, stranded := EncodeAll(e, h, bytes, ok, writers, data);
    if err != Enc.Nil {
      return;
    }
    if n != size {
      err := Enc.LessData;
    }
  }
}
