/** How an object is cut into blocks and shards, and how a byte range is walked block by block. */
module Geometry {
  import opened Bytes
  import opened ErasureCode

  datatype Erasure = Erasure(codec: Codec, blockSize: nat) {

    ghost predicate Valid() { codec.Valid() && blockSize > 0 }

    function ShardSize(): int { CeilFrac(blockSize, codec.dataBlocks) }

    function ShardFileSize(totalLength: int): int
      requires blockSize > 0 && totalLength >= -1
    {
      if totalLength == 0 then 0
      else if totalLength == -1 then -1
      else
        var numShards, lastBlockSize := totalLength / blockSize, totalLength % blockSize;
        numShards * ShardSize() + CeilFrac(lastBlockSize, codec.dataBlocks)
    }

    function ShardFileTillOffset(startOffset: nat, length: nat, totalLength: int): int
      requires blockSize > 0 && totalLength >= -1
    {
      var endShard := (startOffset + length) / blockSize;
      Min(endShard * ShardSize() + ShardSize(), ShardFileSize(totalLength))
    }

    /** The block that holds byte `offset`. */
    function BlockOf(offset: nat): nat
      requires blockSize > 0
    {
      offset / blockSize
    }

    /** Bytes of shard k of an object of `total` bytes. */
    function ChunkLen(total: nat, k: nat): int { CeilFrac(Min(blockSize, total - k * blockSize), codec.dataBlocks) }

    lemma ShardSizePositive()
      requires Valid()
      ensures ShardSize() > 0
    {
      CeilFracPositive(blockSize, codec.dataBlocks);
    }

    /**
     * Chunk k of a shard file occupies [k * ShardSize, min((k + 1) * ShardSize, ShardFileSize)), and every
     * chunk but the last is full.
     */
    lemma ChunkExtent(total: nat, k: nat)
      requires Valid() && k * blockSize < total
      ensures 0 < ChunkLen(total, k) <= ShardSize()
      ensures k * ShardSize() + ChunkLen(total, k) == Min(k * ShardSize() + ShardSize(), ShardFileSize(total))
      ensures (k + 1) * blockSize <= total ==> ChunkLen(total, k) == ShardSize()
    {
      var q, r, S, d := total / blockSize, total % blockSize, ShardSize(), codec.dataBlocks;
      ShardSizePositive();
      assert total == q * blockSize + r;
      if k > q { MulMono(q + 1, k, blockSize); }
      CeilFracMono(r, blockSize, d);
      CeilFracPositive(r, d);
      if k < q {
        MulMono(k + 1, q, blockSize);
        MulMono(k + 1, q, S);
        assert (k + 1) * S == k * S + S;
        assert (k + 1) * blockSize == k * blockSize + blockSize;
      } else {
        assert k == q;
      }
    }

    /** Where the last of n blocks ends, its chunk ends the shard file. */
    lemma LastChunk(total: nat, n: nat)
      requires Valid() && n * blockSize < total <= n * blockSize + blockSize
      ensures 0 < ChunkLen(total, n) <= ShardSize()
      ensures n * ShardSize() + ChunkLen(total, n) == ShardFileSize(total)
    {
      ChunkExtent(total, n);
      if total == n * blockSize + blockSize {
        WholeBlocks(n + 1);
        MulSucc(n, blockSize);
        MulSucc(n, ShardSize());
      } else {
        DivUnique(total, blockSize, n);
      }
    }

    lemma WholeBlocks(n: nat)
      requires Valid() && n > 0
      ensures n * blockSize > 0 && ShardFileSize(n * blockSize) == n * ShardSize()
    {
      MulMono(1, n, blockSize);
      MulDivMod(n, blockSize);
      assert CeilFrac(0, codec.dataBlocks) == 0;
    }

    /**
     * Where a reader of [startOffset, startOffset + length) may have to read to: with block k the one that holds the byte
     * after the range, the end of chunk k, and the end of the shard file if there is no such byte.
     */
    lemma TillIsChunkEnd(startOffset: nat, length: nat, total: nat, k: nat)
      requires Valid() && k * blockSize <= startOffset + length < k * blockSize + blockSize && startOffset + length <= total
      ensures ShardFileTillOffset(startOffset, length, total) ==
                if startOffset + length == total then ShardFileSize(total) else k * ShardSize() + ChunkLen(total, k)
    {
      DivUnique(startOffset + length, blockSize, k);
      if k * blockSize < total {
        ChunkExtent(total, k);
        if startOffset + length == total { LastChunk(total, k); }
      } else {
        AtBlockEnd(total, k);
      }
    }

    lemma AtBlockEnd(total: nat, k: nat)
      requires Valid() && total == k * blockSize
      ensures ShardFileSize(total) == k * ShardSize() <= k * ShardSize() + ShardSize()
    {
      ShardSizePositive();
      if k > 0 { WholeBlocks(k); }
    }

    /** The shard files of an object of unknown size are of unknown size, those of an empty one are empty. */
    lemma NoShardFile()
      requires blockSize > 0
      ensures ShardFileSize(-1) == -1 && ShardFileSize(0) == 0
    {
    }

    /** The number of chunks is the number of blocks. */
    lemma ChunkCount(total: nat)
      requires Valid()
      ensures ShardFileSize(total) >= 0
      ensures CeilFrac(ShardFileSize(total), ShardSize()) == CeilFrac(total, blockSize)
    {
      var n := CeilFrac(total, blockSize);
      CeilFracIsCeiling(total, blockSize, n);
      CeilFracPositive(total, blockSize);
      ShardSizePositive();
      if total > 0 {
        var m := n - 1;
        assert n * blockSize == m * blockSize + blockSize;
        LastChunk(total, m);
        MulMono(0, m, ShardSize());
        CeilFracOf(m, ShardSize(), ChunkLen(total, m));
      }
    }
  }

  /** A stream cut into blocks of `size` bytes, the last one possibly shorter; no block for no data. */
  function Blocks(data: seq<byte>, size: nat): (bs: seq<seq<byte>>)
    requires size > 0
    ensures data == [] <==> bs == []
  {
    if data == [] then []
    else if |data| <= size then [data]
    else [data[..size]] + Blocks(data[size..], size)
  }

  lemma {:induction false} BlockAt(data: seq<byte>, size: nat, k: nat)
    requires size > 0 && k < |Blocks(data, size)|
    ensures k * size < |data|
    ensures Blocks(data, size)[k] == data[k * size..Min(k * size + size, |data|)]
    decreases k
  {
    if |data| > size && k > 0 {
      BlockAt(data[size..], size, k - 1);
      assert (k - 1) * size + size == k * size;
    }
  }

  lemma BlockLen(data: seq<byte>, size: nat, k: nat)
    requires size > 0 && k < |Blocks(data, size)|
    ensures k * size < |data| && |Blocks(data, size)[k]| == Min(size, |data| - k * size)
  {
    BlockAt(data, size, k);
  }

  lemma {:induction false} BlockBounds(data: seq<byte>, size: nat)
    requires size > 0
    ensures (|Blocks(data, size)| - 1) * size < |data| <= |Blocks(data, size)| * size
    decreases |data|
  {
    var n := |Blocks(data, size)|;
    if |data| > size {
      BlockBounds(data[size..], size);
      assert (n - 2) * size + size == (n - 1) * size && (n - 1) * size + size == n * size;
    }
  }

  lemma BlockCount(data: seq<byte>, size: nat)
    requires size > 0
    ensures |Blocks(data, size)| == CeilFrac(|data|, size)
    ensures (|Blocks(data, size)| - 1) * size < |data| <= |Blocks(data, size)| * size
  {
    BlockBounds(data, size);
    CeilFracIsCeiling(|data|, size, |Blocks(data, size)|);
  }

  lemma BlockExists(data: seq<byte>, size: nat, k: nat)
    requires size > 0 && k * size < |data|
    ensures k < |Blocks(data, size)| && k * size >= 0
  {
    BlockBounds(data, size);
    MulMono(0, k, size);
    if k >= |Blocks(data, size)| { MulMono(|Blocks(data, size)|, k, size); }
  }

  lemma LastBlock(data: seq<byte>, size: nat)
    requires size > 0 && data != []
    ensures var n := |Blocks(data, size)| - 1; n * size < |data| <= n * size + size
  {
    BlockBounds(data, size);
    var n := |Blocks(data, size)| - 1;
    assert (n + 1) * size == n * size + size;
  }

  lemma {:induction false} BlocksJoin(data: seq<byte>, size: nat)
    requires size > 0
    ensures Flatten(Blocks(data, size)) == data
    decreases |data|
  {
    if |data| > size {
      BlocksJoin(data[size..], size);
    } else if data != [] {
      assert Flatten([data]) == data + Flatten([]);
    }
  }

  /** Taking one full block off the front of a stream. */
  lemma BlocksFirst(data: seq<byte>, size: nat)
    requires size > 0 && |data| >= size
    ensures Blocks(data, size) == [data[..size]] + Blocks(data[size..], size)
  {
    if |data| == size {
      assert data[..size] == data;
    }
  }

  /** With all data in one buffer-full the buffer length does not show. */
  lemma BlocksOfSmall(data: seq<byte>, size: nat, size': nat)
    requires 0 < size && 0 < size' && |data| <= size && |data| <= size'
    ensures Blocks(data, size) == Blocks(data, size')
  {
  }

  // ---- the block walk shared by Erasure.Decode and bitrotReadFromCache ----

  function Clamp(x: int, lo: int, hi: int): int { Max(lo, Min(x, hi)) }

  /** blockOffset of the source's switch. */
  function BlockOffset(offset: nat, length: nat, size: nat, block: nat): nat
    requires size > 0
  {
    if block == offset / size then offset % size else 0
  }

  /** blockLength of the source's switch. */
  function BlockLength(offset: nat, length: nat, size: nat, block: nat): int
    requires size > 0
  {
    var startBlock, endBlock := offset / size, (offset + length) / size;
    if startBlock == endBlock then length
    else if block == startBlock then size - offset % size
    else if block == endBlock then (offset + length) % size
    else size
  }

  /**
   * Block by block, the switch carves [offset, offset + length) into consecutive pieces: the piece of
   * `block` runs from the range clamped at block * size to the range clamped at (block + 1) * size, and lies
   * inside the block. A piece is empty only for a last block that holds nothing of a non-empty range.
   */
  lemma WalkPiece(offset: nat, length: nat, size: nat, block: nat)
    requires size > 0 && offset / size <= block <= (offset + length) / size
    ensures var bo, bl := BlockOffset(offset, length, size, block), BlockLength(offset, length, size, block);
            && 0 <= bl && bo + bl <= size
            && block * size + bo == Clamp(block * size, offset, offset + length)
            && block * size + bo + bl == Clamp((block + 1) * size, offset, offset + length)
            && (bl == 0 ==> block == (offset + length) / size && Clamp(block * size, offset, offset + length) == offset + length)
  {
    var s, e := offset / size, (offset + length) / size;
    assert offset == s * size + offset % size;
    assert offset + length == e * size + (offset + length) % size;
    assert (block + 1) * size == block * size + size;
    if block > s { MulMono(s + 1, block, size); assert (s + 1) * size == s * size + size; }
    if block < e { MulMono(block + 1, e, size); }
  }

  lemma WalkEnds(offset: nat, length: nat, size: nat)
    requires size > 0
    ensures offset / size <= (offset + length) / size
    ensures Clamp((offset / size) * size, offset, offset + length) == offset
    ensures Clamp(((offset + length) / size + 1) * size, offset, offset + length) == offset + length
  {
    var s, e := offset / size, (offset + length) / size;
    assert offset == s * size + offset % size;
    assert offset + length == e * size + (offset + length) % size;
    assert (e + 1) * size == e * size + size;
    if e < s { MulMono(e + 1, s, size); }
  }
}
