/** Shard files with an interleaved checksum in front of every chunk, their writer and their reader. */
module BitrotStream {
  import opened Bytes
  import opened ErasureCode
  import opened Geometry

  /** A checksum with output of fixed length; nothing else is assumed of it. */
  datatype Hash = Hash(sum: seq<byte> -> seq<byte>, size: nat) {
    ghost predicate Valid() { forall p :: |sum(p)| == size }
  }

  function Frame(h: Hash, p: seq<byte>): seq<byte> {
    if p == [] then [] else h.sum(p) + p
  }

  /** The file a sequence of chunk writes leaves behind. */
  function StreamOf(h: Hash, chunks: seq<Shard>): seq<byte> {
    if chunks == [] then [] else Frame(h, chunks[0]) + StreamOf(h, chunks[1..])
  }

  lemma {:induction false} StreamConcat(h: Hash, a: seq<Shard>, b: seq<Shard>)
    ensures StreamOf(h, a + b) == StreamOf(h, a) + StreamOf(h, b)
  {
    if a == [] {
      assert a + b == b;
    } else {
      assert (a + b)[1..] == a[1..] + b;
      StreamConcat(h, a[1..], b);
    }
  }

  lemma StreamSnoc(h: Hash, a: seq<Shard>, x: Shard)
    ensures StreamOf(h, a + [x]) == StreamOf(h, a) + Frame(h, x)
  {
    StreamConcat(h, a, [x]);
    assert StreamOf(h, [x]) == Frame(h, x) + StreamOf(h, []);
  }

  /** `bitrotShardFileSize` for the streaming algorithm (`streaming`) and for the others. */
  function BitrotShardFileSize(size: int, shardSize: int, streaming: bool, hashSize: nat): int {
    if !streaming then size else CeilFrac(size, shardSize) * hashSize + size
  }

  /** The byte of the shard file at which `ReadAt` opens the stream for logical offset `offset`. */
  function StreamOffset(offset: nat, shardSize: nat, hashSize: nat): nat
    requires shardSize > 0
  {
    (offset / shardSize) * hashSize + offset
  }

  /** Non-empty chunks of `size` bytes, the last one possibly shorter. */
  ghost predicate Chunked(chunks: seq<Shard>, size: nat) {
    forall k :: 0 <= k < |chunks| ==> 0 < |chunks[k]| <= size && (k + 1 < |chunks| ==> |chunks[k]| == size)
  }

  lemma StreamOffsetOfChunk(k: nat, size: nat, hashSize: nat)
    requires size > 0
    ensures StreamOffset(k * size, size, hashSize) == k * (size + hashSize)
  {
    MulDivMod(k, size);
    assert k * hashSize + k * size == k * (size + hashSize);
  }

  lemma {:induction false} FullChunksLength(h: Hash, chunks: seq<Shard>, size: nat)
    requires h.Valid() && size > 0 && forall k :: 0 <= k < |chunks| ==> |chunks[k]| == size
    ensures |StreamOf(h, chunks)| == |chunks| * (size + h.size)
  {
    if chunks != [] {
      FullChunksLength(h, chunks[1..], size);
      var n := |chunks| - 1;
      assert n * (size + h.size) + (size + h.size) == (n + 1) * (size + h.size);
    }
  }

  lemma StreamSplit(h: Hash, chunks: seq<Shard>, k: nat)
    requires k < |chunks|
    ensures StreamOf(h, chunks) == StreamOf(h, chunks[..k]) + Frame(h, chunks[k]) + StreamOf(h, chunks[k + 1..])
  {
    StreamSnoc(h, chunks[..k], chunks[k]);
    assert chunks[..k] + [chunks[k]] + chunks[k + 1..] == chunks;
    StreamConcat(h, chunks[..k] + [chunks[k]], chunks[k + 1..]);
  }

  lemma {:induction false} ChunkSlices(h: Hash, chunks: seq<Shard>, k: nat)
    requires h.Valid() && k < |chunks| && chunks[k] != []
    ensures var at, n, file := |StreamOf(h, chunks[..k])|, |chunks[k]|, StreamOf(h, chunks);
            && at + h.size + n <= |file|
            && (k == |chunks| - 1 ==> at + h.size + n == |file|)
            && file[at..at + h.size] == h.sum(chunks[k])
            && file[at + h.size..at + h.size + n] == chunks[k]
  {
    StreamSplit(h, chunks, k);
    Middle(StreamOf(h, chunks[..k]), h.sum(chunks[k]), chunks[k], StreamOf(h, chunks[k + 1..]));
  }

  /** Chunk k starts at StreamOffset(k * size): its checksum there, its bytes right behind. */
  lemma {:induction false} ChunkStart(h: Hash, chunks: seq<Shard>, size: nat, k: nat)
    requires h.Valid() && size > 0 && Chunked(chunks, size) && k < |chunks|
    ensures StreamOffset(k * size, size, h.size) == k * (size + h.size)
    ensures var at, n, file := k * (size + h.size), |chunks[k]|, StreamOf(h, chunks);
            && at + h.size + n <= |file|
            && (k == |chunks| - 1 ==> at + h.size + n == |file|)
            && file[at..at + h.size] == h.sum(chunks[k])
            && file[at + h.size..at + h.size + n] == chunks[k]
  {
    StreamOffsetOfChunk(k, size, h.size);
    FullChunksLength(h, chunks[..k], size);
    ChunkSlices(h, chunks, k);
  }

  lemma Middle(a: seq<byte>, b: seq<byte>, c: seq<byte>, d: seq<byte>)
    ensures (a + (b + c) + d)[|a|..|a| + |b|] == b
    ensures (a + (b + c) + d)[|a| + |b|..|a| + |b| + |c|] == c
  {
  }

  // ---- what Encode stores for one shard index ----

  /** Shard i of every block of `data`. */
  function ShardChunks(c: Codec, data: seq<byte>, blockSize: nat, i: nat): (cs: seq<Shard>)
    requires c.Valid() && blockSize > 0 && i < c.Total()
    ensures |cs| == |Blocks(data, blockSize)|
  {
    ShardsOf(c, Blocks(data, blockSize), i)
  }

  function ShardsOf(c: Codec, blocks: seq<seq<byte>>, i: nat): (cs: seq<Shard>)
    requires c.Valid() && i < c.Total()
    ensures |cs| == |blocks|
  {
    seq(|blocks|, k requires 0 <= k < |blocks| => (c.EncodeShape(blocks[k]); c.EncodeData(blocks[k])[i]))
  }

  lemma ShardChunkLen(e: Erasure, data: seq<byte>, i: nat, k: nat)
    requires e.Valid() && i < e.codec.Total() && k < |Blocks(data, e.blockSize)|
    ensures k * e.blockSize < |data|
    ensures |ShardChunks(e.codec, data, e.blockSize, i)[k]| == e.ChunkLen(|data|, k)
  {
    BlockLen(data, e.blockSize, k);
    e.codec.EncodeShape(Blocks(data, e.blockSize)[k]);
  }

  lemma ShardChunksShape(e: Erasure, data: seq<byte>, i: nat)
    requires e.Valid() && i < e.codec.Total()
    ensures e.ShardSize() > 0 && Chunked(ShardChunks(e.codec, data, e.blockSize, i), e.ShardSize())
  {
    e.ShardSizePositive();
    var cs := ShardChunks(e.codec, data, e.blockSize, i);
    forall k | 0 <= k < |cs|
      ensures 0 < |cs[k]| <= e.ShardSize() && (k + 1 < |cs| ==> |cs[k]| == e.ShardSize())
    {
      ShardChunkLen(e, data, i, k);
      e.ChunkExtent(|data|, k);
      if k + 1 < |cs| { ShardChunkLen(e, data, i, k + 1); }
    }
  }

  lemma StreamLength(h: Hash, chunks: seq<Shard>, size: nat)
    requires h.Valid() && size > 0 && Chunked(chunks, size) && chunks != []
    ensures var n := |chunks| - 1;
            |StreamOf(h, chunks)| == (n + 1) * h.size + (n * size + |chunks[n]|)
  {
    var n := |chunks| - 1;
    FullChunksLength(h, chunks[..n], size);
    StreamSplit(h, chunks, n);
    assert chunks[n + 1..] == [];
    SlotsLength(n, size, h.size);
  }

  lemma SlotsLength(n: nat, size: nat, hashSize: nat)
    ensures n * (size + hashSize) + hashSize == n * size + (n + 1) * hashSize
  {
  }

  lemma StoredLength(e: Erasure, h: Hash, data: seq<byte>, i: nat)
    requires e.Valid() && h.Valid() && i < e.codec.Total() && data != []
    ensures var cs := ShardChunks(e.codec, data, e.blockSize, i);
            |StreamOf(h, cs)| == |cs| * h.size + e.ShardFileSize(|data|)
  {
    var cs := ShardChunks(e.codec, data, e.blockSize, i);
    ShardChunksShape(e, data, i);
    StreamLength(h, cs, e.ShardSize());
    ChunksFill(e, data, i);
  }

  lemma ChunksFill(e: Erasure, data: seq<byte>, i: nat)
    requires e.Valid() && i < e.codec.Total() && data != []
    ensures var cs := ShardChunks(e.codec, data, e.blockSize, i);
            (|cs| - 1) * e.ShardSize() + |cs[|cs| - 1]| == e.ShardFileSize(|data|)
  {
    var n := |Blocks(data, e.blockSize)| - 1;
    ShardChunkLen(e, data, i, n);
    LastBlock(data, e.blockSize);
    e.LastChunk(|data|, n);
  }

  /** The stored shard file has exactly the length the size functions announce, for every object and geometry. */
  lemma ShardFileLength(e: Erasure, h: Hash, data: seq<byte>, i: nat)
    requires e.Valid() && h.Valid() && i < e.codec.Total()
    ensures e.ShardFileSize(|data|) >= 0
    ensures |StreamOf(h, ShardChunks(e.codec, data, e.blockSize, i))|
         == BitrotShardFileSize(e.ShardFileSize(|data|), e.ShardSize(), true, h.size)
  {
    e.ChunkCount(|data|);
    BlockCount(data, e.blockSize);
    if data != [] {
      StoredLength(e, h, data, i);
    }
  }

  // ---- the writer ----

  /** `breaks(k)`: the pipe to the disk breaks during the k-th non-empty write, after that many bytes. */
  class StreamingBitrotWriter {
    const h: Hash
    const breaks: nat -> Option<nat>
    var file: seq<byte>
    var count: nat
    ghost var broken: bool
    ghost var lateWrites: nat

    constructor (h: Hash, breaks: nat -> Option<nat>)
      ensures this.h == h && this.breaks == breaks && file == [] && count == 0 && !broken && lateWrites == 0
    {
      this.h, this.breaks, file, count, broken, lateWrites := h, breaks, [], 0, false, 0;
    }

    /** Appends checksum and chunk; a broken pipe leaves part of them and is reported. */
    method Write(p: seq<byte>) returns (ok: bool)
      requires h.Valid()
      modifies this
      ensures ok ==> file == old(file) + Frame(h, p)
      ensures old(file) <= file <= old(file) + Frame(h, p)
      ensures ok <==> p == [] || breaks(old(count)).None? || breaks(old(count)).value >= h.size + |p|
      ensures !ok ==> |Frame(h, p)| == h.size + |p| && file == old(file) + Frame(h, p)[..breaks(old(count)).value]
      ensures broken == (old(broken) || !ok) && count == old(count) + if p == [] then 0 else 1
      ensures lateWrites == old(lateWrites) + if old(broken) then 1 else 0
    {
      lateWrites := lateWrites + if broken then 1 else 0;
      if |p| == 0 {
        assert Frame(h, p) == [];
        return true;
      }
      var hashBytes, limit := h.sum(p), breaks(count);
      count := count + 1;
      if limit.Some? && limit.value < |hashBytes| {
        file := file + hashBytes[..limit.value];
        assert Frame(h, p)[..limit.value] == hashBytes[..limit.value];
        broken := true;
        return false;
      }
      file := file + hashBytes;
      if limit.Some? && limit.value < |hashBytes| + |p| {
        file := file + p[..limit.value - |hashBytes|];
        assert Frame(h, p)[..limit.value] == hashBytes + p[..limit.value - |hashBytes|];
        broken := true;
        return false;
      }
      file := file + p;
      assert file == old(file) + Frame(h, p);
      return true;
    }
  }

  // ---- the reader ----

  datatype ReadError = ErrUnexpected | ErrDisk | ErrShort | ErrHash

  datatype ReadResult = Ok(buf: seq<byte>) | Err(error: ReadError)

  /** A disk's copy of a shard file, possibly damaged; `fault(o)`: the disk fails on the read at shard offset o. */
  datatype Disk = Disk(file: seq<byte>, fault: nat -> bool)

  /** A stream that starts with a checksum and n bytes matching it. */
  predicate Intact(h: Hash, s: seq<byte>, n: nat) {
    |s| >= h.size + n && h.sum(s[h.size..h.size + n]) == s[..h.size]
  }

  class StreamingBitrotReader {
    const disk: Disk
    const h: Hash
    const shardSize: nat
    const tillOffset: int
    var rc: Option<seq<byte>>
    var currOffset: int
    /** Whether a "can never happen" branch was ever taken. */
    ghost var unexpected: bool

    constructor (disk: Disk, tillOffset: int, h: Hash, shardSize: nat)
      ensures this.disk == disk && this.h == h && this.shardSize == shardSize
      ensures this.tillOffset == CeilFrac(tillOffset, shardSize) * h.size + tillOffset
      ensures rc == None && !unexpected
    {
      this.disk, this.h, this.shardSize := disk, h, shardSize;
      this.tillOffset := CeilFrac(tillOffset, shardSize) * h.size + tillOffset;
      rc, currOffset, unexpected := None, 0, false;
    }

    /** The stream `ReadFileStream` opens for shard offset `offset`. */
    function Stream(offset: nat): seq<byte>
      requires shardSize > 0
    {
      var streamOffset := StreamOffset(offset, shardSize, h.size);
      Window(disk.file, streamOffset, tillOffset - streamOffset)
    }

    /** Reading n bytes at `offset` of this disk succeeds. */
    predicate Works(offset: nat, n: nat)
      requires shardSize > 0
    {
      !disk.fault(offset) && Intact(h, Stream(offset), n)
    }

    function Payload(offset: nat, n: nat): seq<byte>
      requires shardSize > 0 && Works(offset, n)
    {
      Stream(offset)[h.size..h.size + n]
    }

    /** Not opened yet, or positioned exactly at `offset`. */
    ghost predicate InSync(offset: nat)
      requires shardSize > 0
      reads this
    {
      rc.Some? ==> currOffset == offset && rc.value == Stream(offset)
    }

    method ReadAt(n: nat, offset: nat) returns (r: ReadResult)
      requires h.Valid() && shardSize > 0
      modifies this
      ensures unexpected == (old(unexpected) || r == Err(ErrUnexpected))
      ensures r == Err(ErrUnexpected) <==>
              offset % shardSize != 0 || (old(rc).Some? && offset != old(currOffset))
      ensures r == Err(ErrUnexpected) ==> rc == old(rc) && currOffset == old(currOffset)
      ensures r != Err(ErrUnexpected) ==>
                var s := if old(rc).None? then Stream(offset) else old(rc).value;
                && (r.Ok? <==> !disk.fault(offset) && Intact(h, s, n))
                && (r.Ok? ==> r.buf == s[h.size..h.size + n] && rc == Some(s[h.size + n..]) && currOffset == offset + n)
                && (r.Err? ==> r.error == if disk.fault(offset) then ErrDisk else if |s| < h.size + n then ErrShort else ErrHash)
    {
      if offset % shardSize != 0 {
        unexpected := true;
        return Err(ErrUnexpected);
      }
      if rc.None? {
        currOffset := offset;
        if disk.fault(offset) {
          return Err(ErrDisk);
        }
        rc := Some(Stream(offset));
      }
      if offset != currOffset {
        unexpected := true;
        return Err(ErrUnexpected);
      }
      var s := rc.value;
      if disk.fault(offset) {
        return Err(ErrDisk);
      }
      if |s| < h.size {
        rc := Some([]);
        return Err(ErrShort);
      }
      var hashBytes := s[..h.size];
      s := s[h.size..];
      if |s| < n {
        rc := Some([]);
        return Err(ErrShort);
      }
      var buf := s[..n];
      assert buf == rc.value[h.size..h.size + n] && s[n..] == rc.value[h.size + n..];
      rc := Some(s[n..]);
      if h.sum(buf) != hashBytes {
        return Err(ErrHash);
      }
      currOffset := currOffset + n;
      return Ok(buf);
    }

    /** After a full chunk the open stream is the one that would be opened at the next chunk. */
    lemma StreamAdvances(k: nat)
      requires shardSize > 0 && h.Valid() && |Stream(k * shardSize)| >= h.size + shardSize
      ensures Stream(k * shardSize)[h.size + shardSize..] == Stream((k + 1) * shardSize)
    {
      MulDivMod(k, shardSize);
      MulDivMod(k + 1, shardSize);
      assert (k + 1) * shardSize == k * shardSize + shardSize;
      assert (k + 1) * h.size == k * h.size + h.size;
    }

    /** Whatever this disk serves as chunk k is the chunk that was stored: damage is detected. */
    ghost predicate Honest(chunks: seq<Shard>)
      requires shardSize > 0
    {
      forall k {:trigger chunks[k]} :: 0 <= k < |chunks| && Works(k * shardSize, |chunks[k]|)
        ==> Payload(k * shardSize, |chunks[k]|) == chunks[k]
    }

    /** An undamaged file read within the window works, and serves the stored chunk. */
    lemma {:induction false} UndamagedServes(chunks: seq<Shard>, k: nat)
      requires h.Valid() && shardSize > 0 && Chunked(chunks, shardSize) && k < |chunks|
      requires disk.file == StreamOf(h, chunks)
      ensures !disk.fault(k * shardSize) && tillOffset >= k * (shardSize + h.size) + h.size + |chunks[k]|
              ==> Works(k * shardSize, |chunks[k]|)
      ensures Works(k * shardSize, |chunks[k]|) ==> Payload(k * shardSize, |chunks[k]|) == chunks[k]
    {
      ServesAt(chunks, k, k * shardSize, k * (shardSize + h.size));
    }

    lemma {:induction false} ServesAt(chunks: seq<Shard>, k: nat, offset: int, at: int)
      requires h.Valid() && shardSize > 0 && Chunked(chunks, shardSize) && k < |chunks| && disk.file == StreamOf(h, chunks)
      requires offset == k * shardSize && at == k * (shardSize + h.size)
      ensures offset >= 0
      ensures !disk.fault(offset) && tillOffset >= at + h.size + |chunks[k]| ==> Works(offset, |chunks[k]|)
      ensures Works(offset, |chunks[k]|) ==> Payload(offset, |chunks[k]|) == chunks[k]
    {
      MulMono(0, k, shardSize);
      MulMono(0, k, shardSize + h.size);
      ChunkStart(h, chunks, shardSize, k);
      ServesSlot(offset, at, chunks[k]);
    }

    lemma {:induction false} ServesSlot(offset: nat, at: nat, chunk: Shard)
      requires h.Valid() && shardSize > 0 && chunk != []
      requires at == StreamOffset(offset, shardSize, h.size) && at + h.size + |chunk| <= |disk.file|
      requires disk.file[at..at + h.size] == h.sum(chunk)
      requires disk.file[at + h.size..at + h.size + |chunk|] == chunk
      ensures !disk.fault(offset) && tillOffset >= at + h.size + |chunk| ==> Works(offset, |chunk|)
      ensures Works(offset, |chunk|) ==> Payload(offset, |chunk|) == chunk
    {
      assert Stream(offset) == Window(disk.file, at, tillOffset - at);
      IntactWindow(h, disk.file, at, tillOffset - at, chunk);
    }
  }

  lemma {:induction false} IntactWindow(h: Hash, file: seq<byte>, at: nat, limit: int, chunk: Shard)
    requires chunk != [] && at + h.size + |chunk| <= |file|
    requires file[at..at + h.size] == h.sum(chunk) && file[at + h.size..at + h.size + |chunk|] == chunk
    ensures limit >= h.size + |chunk| ==> Intact(h, Window(file, at, limit), |chunk|)
    ensures Intact(h, Window(file, at, limit), |chunk|)
            ==> Window(file, at, limit)[h.size..h.size + |chunk|] == chunk
  {
    var s, n := Window(file, at, limit), h.size + |chunk|;
    if |s| >= n {
      assert s == file[at..at + |s|];
      SliceOfSlice(file, at, at + |s|, 0, h.size);
      SliceOfSlice(file, at, at + |s|, h.size, n);
    }
  }

  /** The window `ShardFileTillOffset` opens covers every chunk a read of [offset, offset + length) touches. */
  lemma WindowCovers(e: Erasure, h: Hash, data: seq<byte>, offset: nat, length: nat, k: nat)
    requires e.Valid() && h.Valid() && offset + length <= |data|
    requires k * e.blockSize < offset + length
    ensures e.ShardSize() > 0 && e.ShardFileSize(|data|) >= 0
    ensures var till := e.ShardFileTillOffset(offset, length, |data|);
            CeilFrac(till, e.ShardSize()) * h.size + till
              >= k * (e.ShardSize() + h.size) + h.size + e.ChunkLen(|data|, k)
  {
    TillReaches(e, |data|, offset, length, k);
    e.ChunkExtent(|data|, k);
    TillCounts(e.ShardFileTillOffset(offset, length, |data|), e.ShardSize(), h.size, k, e.ChunkLen(|data|, k));
  }

  lemma TillReaches(e: Erasure, total: nat, offset: nat, length: nat, k: nat)
    requires e.Valid() && offset + length <= total && k * e.blockSize < offset + length
    ensures e.ShardSize() > 0 && e.ShardFileSize(total) >= 0
    ensures e.ShardFileTillOffset(offset, length, total) >= k * e.ShardSize() + e.ChunkLen(total, k)
  {
    e.ShardSizePositive();
    e.ChunkCount(total);
    e.ChunkExtent(total, k);
    DivLower(offset + length, e.blockSize, k);
    MulMono(k, (offset + length) / e.blockSize, e.ShardSize());
  }

  lemma TillCounts(till: int, S: nat, hashSize: nat, k: nat, len: nat)
    requires S > 0 && len > 0 && till >= k * S + len
    ensures CeilFrac(till, S) * hashSize + till >= k * (S + hashSize) + hashSize + len
  {
    var c := CeilFrac(till, S);
    CeilFracIsCeiling(till, S, c);
    if c < k + 1 { MulMono(c, k, S); }
    MulMono(k + 1, c, hashSize);
    assert k * (S + hashSize) + hashSize == k * S + (k + 1) * hashSize;
  }
}
