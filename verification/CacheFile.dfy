/**
 * Files of the disk cache: blocks of 1 MiB, each behind its checksum. Writer and reader work on a block buffer taken
 * from a pool, which holds whatever its last user left there.
 */
module CacheFile {
  import opened Bytes
  import opened DataBlocks
  import opened Geometry
  import opened BitrotStream
  import opened Streams

  /** The cache file of `data`: no data are one empty block if that was the size announced. */
  function FileOf(h: Hash, data: seq<byte>, blk: nat): seq<byte>
    requires blk > 0
  {
    if data == [] then h.sum([]) else StreamOf(h, Blocks(data, blk))
  }

  /** What is left of n bytes behind whole blocks. */
  function Partial(n: nat, blk: nat): nat
    requires blk > 0
  {
    if n < blk then n else Partial(n - blk, blk)
  }

  lemma {:induction false} PartialIsRemainder(n: nat, blk: nat)
    requires blk > 0
    ensures Partial(n, blk) == n % blk
  {
    if n < blk {
      DivUnique(n, blk, 0);
    } else {
      PartialIsRemainder(n - blk, blk);
      DivUnique(n - blk, blk, n / blk - 1);
    }
  }

  /** The file so far, with the blocks of the data not yet written behind it, is the whole file. */
  ghost predicate Stored(h: Hash, data: seq<byte>, blk: nat, written: nat, file: seq<byte>)
    requires blk > 0
  {
    && written <= |data| && Partial(|data| - written, blk) == Partial(|data|, blk)
    && file + StreamOf(h, Blocks(data[written..], blk)) == StreamOf(h, Blocks(data, blk))
  }

  lemma {:induction false} StoredNext(h: Hash, data: seq<byte>, blk: nat, written: nat, file: seq<byte>)
    requires blk > 0 && Stored(h, data, blk, written, file) && blk <= |data| - written
    ensures var p := data[written..written + blk]; Stored(h, data, blk, written + blk, file + h.sum(p) + p)
  {
    var p, rest := data[written..written + blk], data[written..];
    var later := data[written + blk..];
    BlocksFirst(rest, blk);
    assert rest[..blk] == p && rest[blk..] == later;
    StreamCons(h, p, Blocks(later, blk));
    Regroup(file, h.sum(p), p, StreamOf(h, Blocks(later, blk)));
  }

  lemma Regroup(a: seq<byte>, b: seq<byte>, c: seq<byte>, d: seq<byte>)
    ensures (a + b + c) + d == a + (b + c + d)
  {
  }

  lemma StreamCons(h: Hash, p: seq<byte>, more: seq<seq<byte>>)
    requires p != []
    ensures StreamOf(h, [p] + more) == h.sum(p) + p + StreamOf(h, more)
  {
    assert ([p] + more)[1..] == more;
  }

  lemma {:induction false} StoredLast(h: Hash, data: seq<byte>, blk: nat, written: nat, file: seq<byte>)
    requires blk > 0 && Stored(h, data, blk, written, file) && |data| - written < blk
    ensures var p := data[written..];
            if p == [] then file == StreamOf(h, Blocks(data, blk)) && |data| % blk == 0
            else file + h.sum(p) + p == StreamOf(h, Blocks(data, blk)) && |data| % blk != 0
  {
    var p := data[written..];
    PartialIsRemainder(|data|, blk);
    if p == [] {
      assert file + [] == file;
    } else {
      var none: seq<seq<byte>> := [];
      assert [p] + none == [p];
      StreamCons(h, p, none);
      Regroup(file, h.sum(p), p, []);
      assert file + h.sum(p) + p + [] == file + h.sum(p) + p;
    }
  }

  /** The last step, which reads less than a block: the file is complete, with a partial or an empty block or none. */
  lemma {:induction false} StoredEnd(h: Hash, data: seq<byte>, blk: nat, written: nat, file: seq<byte>, size: nat, p: seq<byte>)
    requires blk > 0 && Stored(h, data, blk, written, file) && p == data[written..] && |p| < blk
    ensures (if p == [] && size != 0 then file else file + h.sum(p) + p) == WholeFile(h, data, blk, size)
  {
    StoredLast(h, data, blk, written, file);
    LastFile(file, p, StreamOf(h, Blocks(data, blk)), h, size, |data| % blk == 0);
  }

  /** An empty block is written behind whole blocks if the announced size is 0. */
  lemma {:induction false} LastFile(file: seq<byte>, p: seq<byte>, stream: seq<byte>, h: Hash, size: nat, whole: bool)
    requires if p == [] then file == stream && whole else file + h.sum(p) + p == stream && !whole
    ensures var all := stream + if size == 0 && whole then h.sum([]) else [];
            if p == [] && size != 0 then file == all else file + h.sum(p) + p == all
  {
  }

  lemma StoredNone(h: Hash, data: seq<byte>, blk: nat)
    requires blk > 0
    ensures Stored(h, data, blk, 0, [])
  {
    assert data[0..] == data;
  }

  lemma {:induction false} AnnouncedSize(h: Hash, data: seq<byte>, blk: nat, size: nat)
    requires blk > 0
    ensures size == |data| ==> WholeFile(h, data, blk, size) == FileOf(h, data, blk)
  {
  }

  /** What is written for `data` when `size` was announced. */
  function WholeFile(h: Hash, data: seq<byte>, blk: nat, size: nat): seq<byte>
    requires blk > 0
  {
    StreamOf(h, Blocks(data, blk)) + EmptyBlock(h, data, blk, size)
  }

  function EmptyBlock(h: Hash, data: seq<byte>, blk: nat, size: nat): seq<byte>
    requires blk > 0
  {
    if size == 0 && |data| % blk == 0 then h.sum([]) else []
  }

  /** A full block, or the last step. */
  lemma {:induction false} BlockStored(h: Hash, data: seq<byte>, blk: nat, written: nat, file: seq<byte>, size: nat, p: seq<byte>)
    requires blk > 0 && Stored(h, data, blk, written, file) && |p| <= blk && written + |p| <= |data|
    requires p == data[written..written + |p|] && (|p| < blk ==> written + |p| == |data|)
    ensures |p| == blk ==> Stored(h, data, blk, written + blk, file + h.sum(p) + p)
    ensures |p| < blk ==> (if p == [] && size != 0 then file else file + h.sum(p) + p) == WholeFile(h, data, blk, size)
  {
    if |p| == blk {
      StoredNext(h, data, blk, written, file);
    } else {
      assert p == data[written..];
      StoredEnd(h, data, blk, written, file, size, p);
    }
  }

  /** One block of the copy. */
  method WriteBlock(h: Hash, reader: Source, size: nat, buf: array<byte>, file: seq<byte>)
    returns (file': seq<byte>, n: nat, stop: bool, failed: bool)
    requires buf.Length > 0 && reader.Valid() && Stored(h, reader.data, buf.Length, reader.pos, file)
    modifies reader, buf
    ensures reader.Valid() && reader.pos == old(reader.pos) + n
    ensures failed ==> reader.Fails()
    ensures !failed && !stop ==> n > 0 && Stored(h, reader.data, buf.Length, reader.pos, file')
    ensures !failed && stop ==>
              && !reader.Fails() && reader.pos == |reader.data|
              && file' == WholeFile(h, reader.data, buf.Length, size)
  {
    ghost var at := reader.pos;
    var block;
    block, failed := FillBlock(reader, buf);
    file', n, stop := file, |block|, true;
    if failed {
      return;
    }
    BlockStored(h, reader.data, buf.Length, at, file, size, block);
    if n == 0 && size != 0 {
      return;
    }
    file' := file + h.sum(block) + block;
    stop := n < buf.Length;
  }

  /** The next bytes of the source, as many as the buffer holds or are left. */
  method FillBlock(reader: Source, buf: array<byte>) returns (block: seq<byte>, failed: bool)
    requires buf.Length > 0 && reader.Valid()
    modifies reader, buf
    ensures reader.Valid() && reader.pos == old(reader.pos) + |block| && |block| <= buf.Length
    ensures block == reader.data[old(reader.pos)..reader.pos]
    ensures failed ==> reader.Fails()
    ensures !failed && |block| < buf.Length ==> reader.pos == |reader.data| && !reader.Fails()
  {
    var n, status := reader.ReadInto(buf);
    block, failed := buf[..n], status == Failed;
  }

  /**
   * `bitrotWriteToCache`: a source that does not fail is stored whole, whatever the buffer held before. An empty
   * block is written only for an announced size of 0, behind a last block that is full.
   */
  method BitrotWriteToCache(h: Hash, reader: Source, size: nat, buf: array<byte>) returns (file: seq<byte>, bytesWritten: nat, ok: bool)
    requires h.Valid() && buf.Length > 0 && reader.pos == 0
    modifies reader, buf
    ensures ok <==> !reader.Fails()
    ensures bytesWritten == if ok then |reader.data| else 0
    ensures ok ==> file == WholeFile(h, reader.data, buf.Length, size)
    ensures ok && size == bytesWritten ==> file == FileOf(h, reader.data, buf.Length)
  {
    file, bytesWritten, ok := [], 0, true;
    StoredNone(h, reader.data, buf.Length);
    AnnouncedSize(h, reader.data, buf.Length, size);
    var stop := false;
    while !stop
      invariant ok && reader.Valid() && reader.pos == bytesWritten
      invariant !stop ==> Stored(h, reader.data, buf.Length, bytesWritten, file)
      invariant stop ==>
                  && !reader.Fails() && reader.pos == |reader.data|
                  && file == WholeFile(h, reader.data, buf.Length, size)
      decreases |reader.data| - reader.pos, !stop
    {
      var n, failed;
      file, n, stop, failed := WriteBlock(h, reader, size, buf, file);
      if failed {
        return [], 0, false;
      }
      bytesWritten := bytesWritten + n;
    }
  }

  // ---- reading ----

  lemma {:induction false} BlocksChunked(data: seq<byte>, blk: nat)
    requires blk > 0
    ensures Chunked(Blocks(data, blk), blk)
    decreases |data|
  {
    var bs := Blocks(data, blk);
    if |data| > blk {
      BlocksChunked(data[blk..], blk);
      assert forall k :: 0 < k < |bs| ==> bs[k] == Blocks(data[blk..], blk)[k - 1];
    }
  }

  /** Where the frame of block k starts in a cache file. */
  function Place(h: Hash, blk: nat, k: nat): nat { if k == 0 then 0 else Place(h, blk, k - 1) + blk + h.size }

  lemma {:induction false} PlaceIs(h: Hash, blk: nat, k: nat)
    ensures Place(h, blk, k) == k * (blk + h.size)
  {
    if k > 0 {
      PlaceIs(h, blk, k - 1);
      assert k * (blk + h.size) == (k - 1) * (blk + h.size) + (blk + h.size);
    }
  }

  lemma {:induction false} PlaceMono(h: Hash, blk: nat, k: nat, e: nat)
    requires k <= e
    ensures Place(h, blk, k) <= Place(h, blk, e)
    decreases e - k
  {
    if k < e {
      PlaceMono(h, blk, k, e - 1);
    }
  }

  /** What the reader finds at `pos`: a checksum, and the data of a block or what is left of the stream. */
  function FrameSum(h: Hash, s: seq<byte>, pos: nat): seq<byte> { Window(s, pos, h.size) }

  function FrameData(h: Hash, s: seq<byte>, pos: nat, blk: nat): seq<byte> { Window(s, pos + h.size, blk) }

  predicate Verifies(h: Hash, s: seq<byte>, pos: nat, blk: nat) {
    && |FrameSum(h, s, pos)| == h.size && FrameData(h, s, pos, blk) != []
    && h.sum(FrameData(h, s, pos, blk)) == FrameSum(h, s, pos)
  }

  datatype ReadError = NoError | NegativeOffset | EndOfFile | ShortChecksum | HashMismatch | WriteFailed

  /** How the reader ends at a frame that does not verify: io.EOF before a checksum, no error right behind one. */
  function Fault(h: Hash, s: seq<byte>, pos: nat, blk: nat): ReadError {
    if |FrameSum(h, s, pos)| < h.size then (if FrameSum(h, s, pos) == [] then EndOfFile else ShortChecksum)
    else if FrameData(h, s, pos, blk) == [] then NoError else HashMismatch
  }

  function BlockFault(h: Hash, file: seq<byte>, blk: nat, k: nat): ReadError { Fault(h, file, Place(h, blk, k), blk) }

  /** Block k of the file can be read and its checksum fits. */
  predicate BlockVerifies(h: Hash, file: seq<byte>, blk: nat, k: nat) { Verifies(h, file, Place(h, blk, k), blk) }

  /** The file of `data`, damaged at most in ways that the checksums show. */
  ghost predicate Honest(h: Hash, file: seq<byte>, data: seq<byte>, blk: nat)
    requires blk > 0
  {
    forall k :: 0 <= k < |Blocks(data, blk)| && BlockVerifies(h, file, blk, k) ==>
      FrameData(h, file, Place(h, blk, k), blk) == Blocks(data, blk)[k]
  }

  /** At `at` of the stream stands the frame of `chunk`, which is full or ends the stream. */
  ghost predicate FollowedBy(h: Hash, s: seq<byte>, at: nat, chunk: seq<byte>, blk: nat) {
    && 0 < |chunk| <= blk && at + h.size + |chunk| <= |s|
    && s[at..at + h.size] == h.sum(chunk) && s[at + h.size..at + h.size + |chunk|] == chunk
    && (|chunk| < blk ==> at + h.size + |chunk| == |s|)
  }

  lemma {:induction false} PlaceOf(h: Hash, bs: seq<seq<byte>>, blk: nat, k: nat)
    requires h.Valid() && blk > 0 && k < |bs| && Chunked(bs, blk)
    ensures |StreamOf(h, bs[..k])| == Place(h, blk, k)
  {
    FullChunksLength(h, bs[..k], blk);
    PlaceIs(h, blk, k);
  }

  lemma {:induction false} SlotFollows(h: Hash, bs: seq<seq<byte>>, blk: nat, k: nat)
    requires h.Valid() && blk > 0 && k < |bs| && Chunked(bs, blk)
    ensures FollowedBy(h, StreamOf(h, bs), Place(h, blk, k), bs[k], blk)
  {
    PlaceOf(h, bs, blk, k);
    ChunkSlices(h, bs, k);
  }

  lemma {:induction false} ChunkFollows(h: Hash, data: seq<byte>, blk: nat, k: nat)
    requires h.Valid() && blk > 0 && k < |Blocks(data, blk)|
    ensures FollowedBy(h, FileOf(h, data, blk), Place(h, blk, k), Blocks(data, blk)[k], blk)
  {
    BlocksChunked(data, blk);
    SlotFollows(h, Blocks(data, blk), blk, k);
  }

  lemma FrameShows(h: Hash, s: seq<byte>, at: nat, chunk: seq<byte>, blk: nat)
    requires h.Valid() && FollowedBy(h, s, at, chunk, blk)
    ensures Verifies(h, s, at, blk) && FrameData(h, s, at, blk) == chunk
  {
  }

  lemma {:induction false} WholeFileVerifies(h: Hash, data: seq<byte>, blk: nat, k: nat)
    requires h.Valid() && blk > 0 && k < |Blocks(data, blk)|
    ensures BlockVerifies(h, FileOf(h, data, blk), blk, k)
    ensures FrameData(h, FileOf(h, data, blk), Place(h, blk, k), blk) == Blocks(data, blk)[k]
  {
    ChunkFollows(h, data, blk, k);
    FrameShows(h, FileOf(h, data, blk), Place(h, blk, k), Blocks(data, blk)[k], blk);
  }

  lemma WholeFileIsHonest(h: Hash, data: seq<byte>, blk: nat)
    requires h.Valid() && blk > 0
    ensures Honest(h, FileOf(h, data, blk), data, blk)
    ensures forall k :: 0 <= k < |Blocks(data, blk)| ==> BlockVerifies(h, FileOf(h, data, blk), blk, k)
  {
    forall k | 0 <= k < |Blocks(data, blk)|
      ensures BlockVerifies(h, FileOf(h, data, blk), blk, k)
      ensures FrameData(h, FileOf(h, data, blk), Place(h, blk, k), blk) == Blocks(data, blk)[k]
    {
      WholeFileVerifies(h, data, blk, k);
    }
  }

  lemma WindowOfWindow<T>(s: seq<T>, from: nat, n: nat, at: nat, len: nat)
    requires at + len <= n
    ensures Window(Window(s, from, n), at, len) == Window(s, from + at, len)
  {
    if from + at < |s| && len > 0 {
      SliceOfSlice(s, from, Min(from + n, |s|), at, Min(at + len, |Window(s, from, n)|));
    }
  }

  lemma {:induction false} SameFrame(h: Hash, s: seq<byte>, from: nat, n: nat, at: nat, blk: nat)
    requires at + h.size + blk <= n
    ensures FrameSum(h, Window(s, from, n), at) == FrameSum(h, s, from + at)
    ensures FrameData(h, Window(s, from, n), at, blk) == FrameData(h, s, from + at, blk)
  {
    WindowOfWindow(s, from, n, at, h.size);
    WindowOfWindow(s, from, n, at + h.size, blk);
  }

  /** The part of the file opened for blocks s to e. */
  lemma OpenedPart(h: Hash, blk: nat, s: nat, e: nat, unit: nat)
    requires s <= e && unit == blk + h.size
    ensures unit * s == Place(h, blk, s) && unit * s + unit * (e - s + 1) == Place(h, blk, e + 1)
    ensures 0 <= unit * (e - s + 1)
  {
    PlaceIs(h, blk, s);
    PlaceIs(h, blk, e + 1);
    Distribute(unit, s, e - s + 1);
  }

  lemma Distribute(unit: nat, a: nat, b: nat)
    ensures unit * a + unit * b == (a + b) * unit && unit * a == a * unit && 0 <= unit * b
  {
  }

  /**
   * `s` was to be delivered, after which the read would have ended with `ending`. A writer that takes only a part of it
   * ends the read earlier, without an error if that is because its reader closed the pipe.
   */
  ghost predicate Delivers(writer: Sink, s: seq<byte>, ending: ReadError, err: ReadError)
    reads writer
  {
    && writer.data == writer.Clip(s)
    && err == if writer.Fits(s) then ending else if writer.closedPipe then NoError else WriteFailed
  }

  /**
   * One block: checksum, data, comparison, and the wanted piece of it to the writer, whose failure stops the walk.
   * Nothing is delivered of a block that does not verify.
   */
  method ReadBlock(h: Hash, rc: Source, buf: array<byte>, writer: Sink, blockOffset: nat, blockLength: nat, length: nat)
    returns (stop: bool, err: ReadError)
    requires h.Valid() && buf.Length > 0 && rc.Valid() && rc.ending == Ends && writer.Valid() && length > 0
    requires blockOffset + blockLength <= buf.Length
    modifies rc, buf, writer
    ensures rc.Valid() && writer.Valid() && err != NegativeOffset
    ensures !Verifies(h, rc.data, old(rc.pos), buf.Length) ==>
              stop && err == Fault(h, rc.data, old(rc.pos), buf.Length) && writer.data == old(writer.data)
    ensures Verifies(h, rc.data, old(rc.pos), buf.Length) ==>
              var p := FrameData(h, rc.data, old(rc.pos), buf.Length);
              && rc.pos == old(rc.pos) + h.size + |p|
              && (blockOffset + blockLength <= |p| ==>
                    var out := old(writer.data) + p[blockOffset..blockOffset + blockLength];
                    Delivers(writer, out, NoError, err) && (stop <==> |p| < buf.Length || !writer.Fits(out)))
  {
    stop, err := true, NoError;
    var checksumHash, status := rc.Read(h.size);
    assert checksumHash == FrameSum(h, rc.data, old(rc.pos));
    if status != Full {
      return true, if status == EOF then EndOfFile else ShortChecksum;
    }
    var n, _ := rc.ReadInto(buf);
    assert buf[..n] == FrameData(h, rc.data, old(rc.pos), buf.Length);
    var eof := n < buf.Length;
    if n == 0 && length != 0 {
      return true, NoError;
    }
    if h.sum(buf[..n]) != checksumHash {
      return true, HashMismatch;
    }
    var piece := buf[blockOffset..blockOffset + blockLength];
    if blockOffset + blockLength <= n {
      SliceOfSlice(buf[..], 0, n, blockOffset, blockOffset + blockLength);
      assert buf[..][0..n] == buf[..n] && buf[..][blockOffset..blockOffset + blockLength] == piece;
    }
    var ok := writer.Copy(piece);
    if !ok && !writer.closedPipe {
      return true, WriteFailed;
    }
    stop := eof || !ok;
  }

  /** The same for a stream that shows either `chunk` or something that does not verify. */
  method ReadPiece(h: Hash, rc: Source, buf: array<byte>, writer: Sink, blockOffset: nat, blockLength: nat, length: nat,
                   ghost honest: bool, ghost chunk: seq<byte>, ghost start: seq<byte>, ghost out: seq<byte>, ghost all: seq<byte>)
    returns (stop: bool, err: ReadError)
    requires h.Valid() && buf.Length > 0 && rc.Valid() && rc.ending == Ends && writer.Valid() && length > 0
    requires blockOffset + blockLength <= buf.Length
    requires honest ==>
               && (Verifies(h, rc.data, rc.pos, buf.Length) ==> FrameData(h, rc.data, rc.pos, buf.Length) == chunk)
               && blockOffset + blockLength <= |chunk| <= buf.Length
               && writer.data + chunk[blockOffset..blockOffset + blockLength] == out
               && start <= writer.data && out <= all && (|chunk| < buf.Length ==> out == all)
    modifies rc, buf, writer
    ensures rc.Valid() && writer.Valid() && err != NegativeOffset
    ensures honest ==> start <= writer.data <= all
    ensures honest && stop && Verifies(h, rc.data, old(rc.pos), buf.Length) ==>
              Delivers(writer, out, NoError, err) && (|chunk| < buf.Length || !writer.Fits(out))
    ensures !Verifies(h, rc.data, old(rc.pos), buf.Length) ==>
              stop && err == Fault(h, rc.data, old(rc.pos), buf.Length) && writer.data == old(writer.data)
    ensures honest && !stop ==>
              err == NoError && writer.data == out && |chunk| == buf.Length && rc.pos == old(rc.pos) + h.size + buf.Length
  {
    ghost var now := writer.data;
    if honest {
      ClipBetween(writer, now, out, all);
    }
    stop, err := ReadBlock(h, rc, buf, writer, blockOffset, blockLength, length);
  }

  lemma ClipBetween(writer: Sink, now: seq<byte>, out: seq<byte>, all: seq<byte>)
    requires writer.Fits(now) && now <= out <= all
    ensures now <= writer.Clip(out) <= all && (!writer.Fits(out) ==> writer.Clip(out) == writer.Clip(all))
  {
  }

  /** The piece of block k that belongs to the range. */
  lemma {:induction false} PieceOf(data: seq<byte>, blk: nat, offset: nat, length: nat, k: nat, from: nat, to: nat)
    requires blk > 0 && offset + length <= |data| && offset / blk <= k <= (offset + length) / blk
    requires from == Clamp(k * blk, offset, offset + length) && to == Clamp((k + 1) * blk, offset, offset + length)
    requires BlockLength(offset, length, blk, k) > 0
    ensures k < |Blocks(data, blk)| && offset <= from < to <= offset + length
    ensures var bo, bl, chunk := BlockOffset(offset, length, blk, k), BlockLength(offset, length, blk, k), Blocks(data, blk)[k];
            && bo + bl <= |chunk| <= blk && chunk[bo..bo + bl] == data[from..to]
            && (|chunk| < blk ==> to == offset + length && k == (offset + length) / blk)
  {
    var bo, bl := BlockOffset(offset, length, blk, k), BlockLength(offset, length, blk, k);
    WalkPiece(offset, length, blk, k);
    assert (k + 1) * blk == k * blk + blk;
    BlockExists(data, blk, k);
    BlockAt(data, blk, k);
    SliceOfSlice(data, k * blk, Min(k * blk + blk, |data|), bo, bo + bl);
    if k < (offset + length) / blk {
      MulMono(k + 1, (offset + length) / blk, blk);
    }
  }

  /** Block k holds a byte of the range. */
  predicate Touches(offset: nat, length: nat, blk: nat, k: nat)
    requires blk > 0
  {
    offset / blk <= k <= (offset + length) / blk && BlockLength(offset, length, blk, k) != 0
  }

  /** All blocks that hold a byte of the range verify. */
  ghost predicate RangeVerifies(h: Hash, file: seq<byte>, blk: nat, offset: nat, length: nat)
    requires blk > 0
  {
    forall k :: Touches(offset, length, blk, k) ==> BlockVerifies(h, file, blk, k)
  }

  ghost predicate VerifiesBefore(h: Hash, file: seq<byte>, blk: nat, offset: nat, length: nat, end: nat)
    requires blk > 0
  {
    forall k: nat :: k < end && Touches(offset, length, blk, k) ==> BlockVerifies(h, file, blk, k)
  }

  lemma VerifiesStep(h: Hash, file: seq<byte>, blk: nat, offset: nat, length: nat, k: nat)
    requires blk > 0 && VerifiesBefore(h, file, blk, offset, length, k)
    requires Touches(offset, length, blk, k) ==> BlockVerifies(h, file, blk, k)
    ensures VerifiesBefore(h, file, blk, offset, length, k + 1)
    ensures k >= (offset + length) / blk ==> RangeVerifies(h, file, blk, offset, length)
  {
  }

  /** Block k is the first block of the range that does not verify. */
  ghost predicate FirstBad(h: Hash, file: seq<byte>, blk: nat, offset: nat, length: nat, k: nat)
    requires blk > 0
  {
    Touches(offset, length, blk, k) && !BlockVerifies(h, file, blk, k) && VerifiesBefore(h, file, blk, offset, length, k)
  }

  /** There is such a block exactly if the range does not verify, and only one. */
  lemma FirstBadExists(h: Hash, file: seq<byte>, blk: nat, offset: nat, length: nat)
    requires blk > 0
    ensures RangeVerifies(h, file, blk, offset, length) <==> !exists k: nat :: FirstBad(h, file, blk, offset, length, k)
    ensures forall j: nat, k: nat :: FirstBad(h, file, blk, offset, length, j) && FirstBad(h, file, blk, offset, length, k) ==> j == k
  {
    if !RangeVerifies(h, file, blk, offset, length) {
      var k: nat :| Touches(offset, length, blk, k) && !BlockVerifies(h, file, blk, k);
      var j := SearchBad(h, file, blk, offset, length, k);
    }
  }

  lemma {:induction false} SearchBad(h: Hash, file: seq<byte>, blk: nat, offset: nat, length: nat, k: nat) returns (j: nat)
    requires blk > 0 && Touches(offset, length, blk, k) && !BlockVerifies(h, file, blk, k)
    ensures FirstBad(h, file, blk, offset, length, j)
    decreases k
  {
    if VerifiesBefore(h, file, blk, offset, length, k) {
      j := k;
    } else {
      var i: nat :| i < k && Touches(offset, length, blk, i) && !BlockVerifies(h, file, blk, i);
      j := SearchBad(h, file, blk, offset, length, i);
    }
  }

  /** The part of the range before block k. */
  function RangeBefore(data: seq<byte>, blk: nat, offset: nat, length: nat, k: nat): seq<byte>
    requires offset + length <= |data|
  {
    data[offset..Clamp(k * blk, offset, offset + length)]
  }

  /** What a read of an honest file delivers: all of the range, or what precedes the first block that does not verify. */
  ghost predicate ReadsHonestly(h: Hash, file: seq<byte>, data: seq<byte>, blk: nat, offset: nat, length: nat,
                                writer: Sink, start: seq<byte>, err: ReadError)
    requires blk > 0 && offset + length <= |data|
    reads writer
  {
    && (RangeVerifies(h, file, blk, offset, length) ==> Delivers(writer, start + data[offset..offset + length], NoError, err))
    && forall k: nat :: FirstBad(h, file, blk, offset, length, k) ==>
         Delivers(writer, start + RangeBefore(data, blk, offset, length, k), BlockFault(h, file, blk, k), err)
  }

  /** The file ends right behind the checksum of the first block of the range that does not verify. */
  ghost predicate CutBehindChecksum(h: Hash, file: seq<byte>, blk: nat, offset: nat, length: nat)
    requires blk > 0
  {
    exists k: nat :: FirstBad(h, file, blk, offset, length, k)
                     && |FrameSum(h, file, Place(h, blk, k))| == h.size && FrameData(h, file, Place(h, blk, k), blk) == []
  }

  /** The file ends where the first block of the range that does not verify should begin. */
  ghost predicate CutBeforeChecksum(h: Hash, file: seq<byte>, blk: nat, offset: nat, length: nat)
    requires blk > 0
  {
    exists k: nat :: FirstBad(h, file, blk, offset, length, k) && h.size > 0 && FrameSum(h, file, Place(h, blk, k)) == []
  }

  /** A pipe closed with io.EOF looks to its reader like one closed without an error. */
  predicate EndsNormally(err: ReadError) { err == NoError || err == EndOfFile }

  /**
   * This is exactly when a read, to a writer that takes everything, comes back short without an error, and when it
   * comes back short and looks complete to the reader of the pipe.
   */
  lemma ShortWithoutError(h: Hash, file: seq<byte>, data: seq<byte>, blk: nat, offset: nat, length: nat,
                          writer: Sink, start: seq<byte>, err: ReadError)
    requires blk > 0 && offset + length <= |data| && writer.Fits(start + data[offset..offset + length])
    requires ReadsHonestly(h, file, data, blk, offset, length, writer, start, err)
    ensures err == NoError && writer.data != start + data[offset..offset + length]
       <==> CutBehindChecksum(h, file, blk, offset, length)
    ensures err == EndOfFile <==> CutBeforeChecksum(h, file, blk, offset, length)
    ensures EndsNormally(err) && writer.data != start + data[offset..offset + length]
       <==> CutBehindChecksum(h, file, blk, offset, length) || CutBeforeChecksum(h, file, blk, offset, length)
  {
    FirstBadExists(h, file, blk, offset, length);
    if !RangeVerifies(h, file, blk, offset, length) {
      var k: nat :| FirstBad(h, file, blk, offset, length, k);
      BeforeIsLess(data, blk, offset, length, k);
      var part := RangeBefore(data, blk, offset, length, k);
      assert |start + part| < |start + data[offset..offset + length]|;
      assert Delivers(writer, start + part, BlockFault(h, file, blk, k), err);
    }
  }

  /**
   * `bitrotReadFromCache`: from an honest file exactly the bytes of the range before its first block that does not
   * verify are delivered, and how the read ends is decided by that block. It comes back short without an error exactly
   * if the file is cut off right behind the checksum of that block, and with io.EOF exactly if right before it. From the
   * cache file of `data` itself every range inside it is delivered exactly, whatever its alignment and whatever the
   * buffer held before.
   */
  method BitrotReadFromCache(h: Hash, file: seq<byte>, offset: int, length: nat, writer: Sink, buf: array<byte>, ghost data: seq<byte>)
    returns (err: ReadError)
    requires h.Valid() && buf.Length > 0 && writer.Valid()
    modifies writer, buf
    ensures err == NegativeOffset <==> offset < 0
    ensures err == NegativeOffset ==> writer.data == old(writer.data)
    ensures 0 <= offset && offset + length <= |data| && Honest(h, file, data, buf.Length) ==>
              ReadsHonestly(h, file, data, buf.Length, offset, length, writer, old(writer.data), err)
    ensures 0 <= offset && offset + length <= |data| && Honest(h, file, data, buf.Length)
            && writer.Fits(old(writer.data) + data[offset..offset + length]) ==>
              (err == NoError && writer.data != old(writer.data) + data[offset..offset + length]
               <==> CutBehindChecksum(h, file, buf.Length, offset, length))
              && (err == EndOfFile <==> CutBeforeChecksum(h, file, buf.Length, offset, length))
    ensures 0 <= offset && offset + length <= |data| && file == FileOf(h, data, buf.Length) ==>
              Delivers(writer, old(writer.data) + data[offset..offset + length], NoError, err)
  {
    if offset < 0 {
      return NegativeOffset;
    }
    ghost var start := writer.data;
    err := ReadRange(h, file, offset, length, writer, buf, data);
    if offset + length <= |data| && file == FileOf(h, data, buf.Length) {
      WholeRangeVerifies(h, data, buf.Length, offset, length);
    }
    if offset + length <= |data| && Honest(h, file, data, buf.Length) && writer.Fits(start + data[offset..offset + length]) {
      ShortWithoutError(h, file, data, buf.Length, offset, length, writer, start, err);
    }
  }

  /**
   * The goroutine that feeds a client from the cache, and what the client gets of the pipe. From an honest file the
   * client takes a short answer for a complete one exactly if the file is cut off right behind or right before the
   * checksum of the first block that does not verify; only in the second case is the cached object removed.
   */
  method ServeFromCache(h: Hash, file: seq<byte>, offset: nat, length: nat, buf: array<byte>, ghost data: seq<byte>)
    returns (got: seq<byte>, complete: bool, removed: bool)
    requires h.Valid() && buf.Length > 0
    modifies buf
    ensures offset + length <= |data| && Honest(h, file, data, buf.Length) ==>
              && got <= data[offset..offset + length]
              && (complete && got != data[offset..offset + length] && !removed <==>
                    CutBehindChecksum(h, file, buf.Length, offset, length))
              && (complete && removed <==> CutBeforeChecksum(h, file, buf.Length, offset, length))
              && (CutBeforeChecksum(h, file, buf.Length, offset, length) ==> got != data[offset..offset + length])
              && (removed ==> got != data[offset..offset + length])
              && forall k: nat :: FirstBad(h, file, buf.Length, offset, length, k) ==> got == RangeBefore(data, buf.Length, offset, length, k)
    ensures offset + length <= |data| && file == FileOf(h, data, buf.Length) ==>
              got == data[offset..offset + length] && complete && !removed
  {
    var writer := new Sink(None, true);
    var err := BitrotReadFromCache(h, file, offset, length, writer, buf, data);
    got, complete, removed := writer.data, EndsNormally(err), err != NoError;
    if offset + length <= |data| {
      var range := data[offset..offset + length];
      assert [] + range == range;
      if Honest(h, file, data, buf.Length) {
        ShortWithoutError(h, file, data, buf.Length, offset, length, writer, [], err);
        ShortOfRange(h, file, data, buf.Length, offset, length, writer, err);
      }
    }
  }

  /** What precedes a block of the range is less than the range. */
  lemma BeforeIsLess(data: seq<byte>, blk: nat, offset: nat, length: nat, k: nat)
    requires blk > 0 && offset + length <= |data| && Touches(offset, length, blk, k)
    ensures RangeBefore(data, blk, offset, length, k) <= data[offset..offset + length]
    ensures |RangeBefore(data, blk, offset, length, k)| < length
  {
    WalkPiece(offset, length, blk, k);
    var cur := Clamp(k * blk, offset, offset + length);
    assert data[offset..offset + length] == data[offset..cur] + data[cur..offset + length];
  }

  lemma ShortOfRange(h: Hash, file: seq<byte>, data: seq<byte>, blk: nat, offset: nat, length: nat, writer: Sink, err: ReadError)
    requires blk > 0 && offset + length <= |data| && writer.limit == None
    requires ReadsHonestly(h, file, data, blk, offset, length, writer, [], err)
    ensures writer.data <= data[offset..offset + length]
    ensures err != NoError ==> writer.data != data[offset..offset + length]
    ensures forall k: nat :: FirstBad(h, file, blk, offset, length, k) ==> writer.data == RangeBefore(data, blk, offset, length, k)
  {
    FirstBadExists(h, file, blk, offset, length);
    var range := data[offset..offset + length];
    assert [] + range == range;
    forall k: nat | FirstBad(h, file, blk, offset, length, k)
      ensures writer.data == RangeBefore(data, blk, offset, length, k) && writer.data <= range && |writer.data| < length
    {
      BeforeIsLess(data, blk, offset, length, k);
      var part := RangeBefore(data, blk, offset, length, k);
      assert [] + part == part;
    }
  }

  lemma WholeRangeVerifies(h: Hash, data: seq<byte>, blk: nat, offset: nat, length: nat)
    requires h.Valid() && blk > 0 && offset + length <= |data|
    ensures Honest(h, FileOf(h, data, blk), data, blk) && RangeVerifies(h, FileOf(h, data, blk), blk, offset, length)
  {
    WholeFileIsHonest(h, data, blk);
    forall k | Touches(offset, length, blk, k) ensures BlockVerifies(h, FileOf(h, data, blk), blk, k) {
      WalkPiece(offset, length, blk, k);
      BlockExists(data, blk, k);
    }
  }

  /** Behind blocks before k the stream of the n bytes from `from` on stands at `pos`, and the range at `cur`. */
  ghost predicate Before(h: Hash, data: seq<byte>, offset: nat, length: nat, blk: nat, k: nat, from: nat, n: nat, pos: nat, cur: nat)
    requires blk > 0
  {
    && offset + length <= |data| && from + n == Place(h, blk, (offset + length) / blk + 1)
    && from + pos == Place(h, blk, k)
    && offset <= cur <= offset + length && cur == Clamp(k * blk, offset, offset + length)
  }

  /** The stream shows block k as the file does. */
  lemma {:induction false} StreamAt(h: Hash, file: seq<byte>, data: seq<byte>, offset: nat, length: nat, blk: nat, k: nat, from: nat, n: nat,
                 pos: nat, cur: nat)
    requires blk > 0 && Before(h, data, offset, length, blk, k, from, n, pos, cur) && k <= (offset + length) / blk
    ensures Verifies(h, Window(file, from, n), pos, blk) == BlockVerifies(h, file, blk, k)
    ensures Fault(h, Window(file, from, n), pos, blk) == BlockFault(h, file, blk, k)
    ensures FrameData(h, Window(file, from, n), pos, blk) == FrameData(h, file, Place(h, blk, k), blk)
  {
    PlaceMono(h, blk, k + 1, (offset + length) / blk + 1);
    FrameAt(h, file, from, n, pos, blk, Place(h, blk, k));
  }

  lemma FrameAt(h: Hash, file: seq<byte>, from: nat, n: nat, pos: nat, blk: nat, place: nat)
    requires from + pos == place && pos + h.size + blk <= n
    ensures Verifies(h, Window(file, from, n), pos, blk) == Verifies(h, file, place, blk)
    ensures Fault(h, Window(file, from, n), pos, blk) == Fault(h, file, place, blk)
    ensures FrameData(h, Window(file, from, n), pos, blk) == FrameData(h, file, place, blk)
  {
    SameFrame(h, file, from, n, pos, blk);
  }

  lemma BeforeNext(h: Hash, data: seq<byte>, offset: nat, length: nat, blk: nat, k: nat, from: nat, n: nat, pos: nat, cur: nat, next: nat)
    requires blk > 0 && Before(h, data, offset, length, blk, k, from, n, pos, cur)
    requires next == Clamp((k + 1) * blk, offset, offset + length)
    ensures Before(h, data, offset, length, blk, k + 1, from, n, pos + h.size + blk, next)
  {
  }

  /** What block k contributes to the range, and where it takes stream and range. */
  lemma RoundFacts(h: Hash, data: seq<byte>, offset: nat, length: nat, blk: nat, k: nat, from: nat, n: nat, pos: nat, cur: nat)
    returns (next: nat)
    requires blk > 0 && Before(h, data, offset, length, blk, k, from, n, pos, cur)
    requires offset / blk <= k <= (offset + length) / blk && BlockLength(offset, length, blk, k) > 0
    ensures k < |Blocks(data, blk)| && cur <= next <= offset + length && next == Clamp((k + 1) * blk, offset, offset + length)
    ensures var bo, bl, chunk := BlockOffset(offset, length, blk, k), BlockLength(offset, length, blk, k), Blocks(data, blk)[k];
            && bo + bl <= |chunk| <= blk && chunk[bo..bo + bl] == data[cur..next]
            && if |chunk| < blk then next == offset + length && k == (offset + length) / blk
               else Before(h, data, offset, length, blk, k + 1, from, n, pos + h.size + |chunk|, next)
  {
    next := Clamp((k + 1) * blk, offset, offset + length);
    PieceOf(data, blk, offset, length, k, cur, next);
    BeforeNext(h, data, offset, length, blk, k, from, n, pos, cur, next);
  }

  /** The round in full: what the stream may show, and what has been delivered with it. */
  lemma {:induction false} RoundValues(h: Hash, file: seq<byte>, data: seq<byte>, offset: nat, length: nat, blk: nat, k: nat, from: nat, n: nat,
                    pos: nat, cur: nat, start: seq<byte>)
    returns (chunk: seq<byte>, next: nat, out: seq<byte>, all: seq<byte>)
    requires blk > 0 && Honest(h, file, data, blk) && Before(h, data, offset, length, blk, k, from, n, pos, cur)
    requires offset / blk <= k <= (offset + length) / blk && BlockLength(offset, length, blk, k) > 0
    ensures Verifies(h, Window(file, from, n), pos, blk) == BlockVerifies(h, file, blk, k)
    ensures Fault(h, Window(file, from, n), pos, blk) == BlockFault(h, file, blk, k)
    ensures BlockVerifies(h, file, blk, k) ==> FrameData(h, Window(file, from, n), pos, blk) == chunk
    ensures cur <= next <= offset + length && out == start + data[offset..next] && all == start + data[offset..offset + length]
    ensures var bo, bl := BlockOffset(offset, length, blk, k), BlockLength(offset, length, blk, k);
            bo + bl <= |chunk| <= blk && start + data[offset..cur] + chunk[bo..bo + bl] == out
    ensures start <= start + data[offset..cur] && out <= all
    ensures next == Clamp((k + 1) * blk, offset, offset + length)
    ensures if |chunk| < blk then out == all && next == offset + length && k == (offset + length) / blk
            else Before(h, data, offset, length, blk, k + 1, from, n, pos + h.size + blk, next)
  {
    next := RoundFacts(h, data, offset, length, blk, k, from, n, pos, cur);
    StreamAt(h, file, data, offset, length, blk, k, from, n, pos, cur);
    Extends(start, data, offset, cur, next, offset + length);
    chunk, out, all := Blocks(data, blk)[k], start + data[offset..next], start + data[offset..offset + length];
  }

  lemma PieceInside(offset: nat, length: nat, blk: nat, k: nat, cur: nat)
    requires blk > 0 && offset / blk <= k <= (offset + length) / blk
    ensures var bo, bl := BlockOffset(offset, length, blk, k), BlockLength(offset, length, blk, k);
            && 0 <= bl && bo + bl <= blk && (length == 0 ==> bl == 0)
            && (bl == 0 && cur == Clamp(k * blk, offset, offset + length) ==> cur == offset + length && k == (offset + length) / blk)
  {
    WalkPiece(offset, length, blk, k);
  }

  lemma Extends(start: seq<byte>, data: seq<byte>, offset: nat, cur: nat, next: nat, end: nat)
    requires offset <= cur <= next <= end <= |data|
    ensures start + data[offset..cur] + data[cur..next] == start + data[offset..next]
    ensures start <= start + data[offset..cur] <= start + data[offset..next] <= start + data[offset..end]
  {
    assert data[offset..cur] + data[cur..next] == data[offset..next];
    assert data[offset..next] + data[next..end] == data[offset..end];
  }

  /** The walk over an honest file has delivered the range up to `cur`. */
  ghost predicate Walking(h: Hash, file: seq<byte>, data: seq<byte>, offset: nat, length: nat, blk: nat, k: nat, from: nat, n: nat,
                          rc: Source, writer: Sink, start: seq<byte>, cur: nat)
    requires blk > 0
    reads rc, writer
  {
    && Honest(h, file, data, blk) && Before(h, data, offset, length, blk, k, from, n, rc.pos, cur)
    && rc.data == Window(file, from, n) && writer.data == start + data[offset..cur]
  }

  /** One round of the walk over a block that holds a byte of the range, going on or ending. */
  method ReadRound(h: Hash, offset: nat, length: nat, writer: Sink, buf: array<byte>, rc: Source, block: nat, ghost honest: bool,
                   ghost file: seq<byte>, ghost data: seq<byte>, ghost from: nat, ghost n: nat, ghost start: seq<byte>, ghost cur: nat)
    returns (stop: bool, err: ReadError, ghost next: nat)
    requires h.Valid() && buf.Length > 0 && writer.Valid() && rc.Valid() && rc.ending == Ends
    requires Touches(offset, length, buf.Length, block)
    requires honest ==> Walking(h, file, data, offset, length, buf.Length, block, from, n, rc, writer, start, cur)
    modifies writer, buf, rc
    ensures rc.Valid() && writer.Valid() && err != NegativeOffset
    ensures honest ==> offset <= next <= offset + length
    ensures honest && stop && BlockVerifies(h, file, buf.Length, block) ==>
              && Delivers(writer, start + data[offset..next], NoError, err)
              && if writer.Fits(start + data[offset..next]) then next == offset + length && block == (offset + length) / buf.Length
                 else next == Clamp((block + 1) * buf.Length, offset, offset + length)
    ensures honest && !BlockVerifies(h, file, buf.Length, block) ==>
              stop && err == BlockFault(h, file, buf.Length, block) && writer.data == start + data[offset..cur]
    ensures honest && !stop ==>
              err == NoError && Walking(h, file, data, offset, length, buf.Length, block + 1, from, n, rc, writer, start, next)
  {
    next := cur;
    var blockOffset := BlockOffset(offset, length, buf.Length, block);
    var blockLength := BlockLength(offset, length, buf.Length, block);
    PieceInside(offset, length, buf.Length, block, cur);
    ghost var chunk, out, all := [], [], [];
    if honest {
      chunk, next, out, all := RoundValues(h, file, data, offset, length, buf.Length, block, from, n, rc.pos, cur, start);
    }
    stop, err := ReadPiece(h, rc, buf, writer, blockOffset, blockLength, length, honest, chunk, start, out, all);
  }

  /** `readCacheFileStream` for the blocks of the range. */
  method OpenStream(h: Hash, file: seq<byte>, offset: nat, length: nat, blk: nat, ghost data: seq<byte>)
    returns (rc: Source, ghost from: nat, ghost n: nat)
    requires blk > 0
    ensures fresh(rc) && rc.Valid() && rc.ending == Ends && rc.data == Window(file, from, n)
    ensures offset + length <= |data| ==> Before(h, data, offset, length, blk, offset / blk, from, n, rc.pos, offset)
  {
    var unit := blk + h.size;
    var startBlock, endBlock := offset / blk, (offset + length) / blk;
    WalkEnds(offset, length, blk);
    OpenedPart(h, blk, startBlock, endBlock, unit);
    var blockStartOffset, tillLength := unit * startBlock, unit * (endBlock - startBlock + 1);
    rc := new Source(Window(file, blockStartOffset, tillLength), Ends);
    from, n := blockStartOffset, tillLength;
  }

  method ReadRange(h: Hash, file: seq<byte>, offset: nat, length: nat, writer: Sink, buf: array<byte>, ghost data: seq<byte>)
    returns (err: ReadError)
    requires h.Valid() && buf.Length > 0 && writer.Valid()
    modifies writer, buf
    ensures err != NegativeOffset
    ensures offset + length <= |data| && Honest(h, file, data, buf.Length) ==>
              ReadsHonestly(h, file, data, buf.Length, offset, length, writer, old(writer.data), err)
  {
    ghost var honest, start := offset + length <= |data| && Honest(h, file, data, buf.Length), writer.data;
    var rc, from, n := OpenStream(h, file, offset, length, buf.Length, data);
    assert honest ==> start + data[offset..offset] == start;
    WalkEnds(offset, length, buf.Length);
    err := ReadBlocks(h, offset, length, writer, buf, rc, offset / buf.Length, (offset + length) / buf.Length,
                      honest, file, data, from, n, start);
  }

  /** The loop over the blocks. */
  method ReadBlocks(h: Hash, offset: nat, length: nat, writer: Sink, buf: array<byte>, rc: Source, startBlock: nat, endBlock: nat,
                    ghost honest: bool, ghost file: seq<byte>, ghost data: seq<byte>, ghost from: nat, ghost n: nat, ghost start: seq<byte>)
    returns (err: ReadError)
    requires h.Valid() && buf.Length > 0 && writer.Valid() && rc.Valid() && rc.ending == Ends
    requires startBlock == offset / buf.Length && endBlock == (offset + length) / buf.Length && startBlock <= endBlock
    requires honest ==> Walking(h, file, data, offset, length, buf.Length, startBlock, from, n, rc, writer, start, offset)
    modifies writer, buf, rc
    ensures err != NegativeOffset
    ensures honest ==> ReadsHonestly(h, file, data, buf.Length, offset, length, writer, start, err)
  {
    ghost var cur := offset;
    err := NoError;
    var block := startBlock;
    while block <= endBlock
      invariant startBlock <= block <= endBlock + 1 && rc.Valid() && writer.Valid() && err == NoError
      invariant honest ==> Walking(h, file, data, offset, length, buf.Length, block, from, n, rc, writer, start, cur)
      invariant honest ==> VerifiesBefore(h, file, buf.Length, offset, length, block)
    {
      if BlockLength(offset, length, buf.Length, block) == 0 {
        PieceInside(offset, length, buf.Length, block, cur);
        if honest {
          VerifiesStep(h, file, buf.Length, offset, length, block);
          EndsWhole(h, file, data, buf.Length, offset, length, writer, start, cur, err);
        }
        return;
      }
      ghost var was := cur;
      var stop;
      stop, err, cur := ReadRound(h, offset, length, writer, buf, rc, block, honest, file, data, from, n, start, cur);
      if stop || err != NoError {
        if honest && !BlockVerifies(h, file, buf.Length, block) {
          EndsBad(h, file, data, buf.Length, offset, length, block, writer, start, was, err);
        } else if honest {
          VerifiesStep(h, file, buf.Length, offset, length, block);
          EndsGood(h, file, data, buf.Length, offset, length, block, writer, start, cur, err);
        }
        return;
      }
      if honest {
        VerifiesStep(h, file, buf.Length, offset, length, block);
      }
      block := block + 1;
    }
    if honest {
      PastTheEnd(offset, length, buf.Length, block);
      EndsWhole(h, file, data, buf.Length, offset, length, writer, start, cur, err);
    }
  }

  lemma PastTheEnd(offset: nat, length: nat, blk: nat, k: nat)
    requires blk > 0 && k == (offset + length) / blk + 1
    ensures Clamp(k * blk, offset, offset + length) == offset + length
  {
    WalkEnds(offset, length, blk);
  }

  lemma EndsBad(h: Hash, file: seq<byte>, data: seq<byte>, blk: nat, offset: nat, length: nat, k: nat,
                writer: Sink, start: seq<byte>, cur: nat, err: ReadError)
    requires blk > 0 && offset + length <= |data| && FirstBad(h, file, blk, offset, length, k) && writer.Valid()
    requires cur == Clamp(k * blk, offset, offset + length) && writer.data == start + data[offset..cur]
    requires err == BlockFault(h, file, blk, k)
    ensures ReadsHonestly(h, file, data, blk, offset, length, writer, start, err)
  {
    FirstBadExists(h, file, blk, offset, length);
  }

  lemma EndsGood(h: Hash, file: seq<byte>, data: seq<byte>, blk: nat, offset: nat, length: nat, k: nat,
                 writer: Sink, start: seq<byte>, next: nat, err: ReadError)
    requires blk > 0 && offset + length <= |data| && offset <= next <= offset + length
    requires VerifiesBefore(h, file, blk, offset, length, k + 1) && Delivers(writer, start + data[offset..next], NoError, err)
    requires if writer.Fits(start + data[offset..next]) then next == offset + length && RangeVerifies(h, file, blk, offset, length)
             else next == Clamp((k + 1) * blk, offset, offset + length)
    ensures ReadsHonestly(h, file, data, blk, offset, length, writer, start, err)
  {
    FirstBadExists(h, file, blk, offset, length);
    if !writer.Fits(start + data[offset..next]) {
      DeliversMore(writer, start, data, offset, next, offset + length, NoError, err);
      forall j: nat | FirstBad(h, file, blk, offset, length, j)
        ensures Delivers(writer, start + RangeBefore(data, blk, offset, length, j), BlockFault(h, file, blk, j), err)
      {
        MulMono(k + 1, j, blk);
        DeliversMore(writer, start, data, offset, next, Clamp(j * blk, offset, offset + length), BlockFault(h, file, blk, j), err);
      }
    }
  }

  lemma EndsWhole(h: Hash, file: seq<byte>, data: seq<byte>, blk: nat, offset: nat, length: nat,
                  writer: Sink, start: seq<byte>, cur: nat, err: ReadError)
    requires blk > 0 && offset + length <= |data| && RangeVerifies(h, file, blk, offset, length)
    requires cur == offset + length && writer.Valid() && writer.data == start + data[offset..cur] && err == NoError
    ensures ReadsHonestly(h, file, data, blk, offset, length, writer, start, err)
  {
    FirstBadExists(h, file, blk, offset, length);
  }

  lemma DeliversMore(writer: Sink, start: seq<byte>, data: seq<byte>, offset: nat, next: nat, end: nat, ending: ReadError, err: ReadError)
    requires offset <= next <= end <= |data|
    requires !writer.Fits(start + data[offset..next]) && Delivers(writer, start + data[offset..next], NoError, err)
    ensures Delivers(writer, start + data[offset..end], ending, err)
  {
    assert data[offset..end] == data[offset..next] + data[next..end];
  }

  /** Whatever is written to the cache is read back, in any range, through buffers with any old contents. */
  method CacheRoundTrip(h: Hash, data: seq<byte>, offset: nat, length: nat, buf: array<byte>, buf': array<byte>) returns (out: seq<byte>)
    requires h.Valid() && 0 < buf.Length == buf'.Length && offset + length <= |data|
    modifies buf, buf'
    ensures out == data[offset..offset + length]
  {
    var reader := new Source(data, Ends);
    var file, _, _ := BitrotWriteToCache(h, reader, |data|, buf);
    var writer := new Sink(None, true);
    var _ := BitrotReadFromCache(h, file, offset, length, writer, buf', data);
    assert [] + data[offset..offset + length] == data[offset..offset + length];
    out := writer.data;
  }

  /** A cache file that ends right behind a checksum reads without error, and without the data. */
  method EndsQuietly(buf: array<byte>) returns (out: seq<byte>, err: ReadError)
    requires buf.Length > 0
    modifies buf
    ensures err == NoError && out == []
  {
    var h := Hash(p => [0], 1);
    var file, data := [0], [7];
    var writer := new Sink(None, true);
    assert FrameData(h, file, Place(h, buf.Length, 0), buf.Length) == [];
    assert Blocks(data, buf.Length) == [data];
    OneByteRange(buf.Length);
    assert !BlockVerifies(h, file, buf.Length, 0);
    err := BitrotReadFromCache(h, file, 0, 1, writer, buf, data);
    out := writer.data;
  }

  /** The cache file of `data`, cut off before block k. */
  function CutFile(h: Hash, data: seq<byte>, blk: nat, k: nat): seq<byte>
    requires blk > 0
  {
    Window(FileOf(h, data, blk), 0, Place(h, blk, k))
  }

  /** A block that verifies does so in a file cut off behind it. */
  lemma {:induction false} CutKeeps(h: Hash, whole: seq<byte>, blk: nat, k: nat, i: nat)
    requires i < k && BlockVerifies(h, whole, blk, i)
    ensures BlockVerifies(h, Window(whole, 0, Place(h, blk, k)), blk, i)
    ensures FrameData(h, Window(whole, 0, Place(h, blk, k)), Place(h, blk, i), blk) == FrameData(h, whole, Place(h, blk, i), blk)
  {
    PlaceMono(h, blk, i + 1, k);
    FrameAt(h, whole, 0, Place(h, blk, k), Place(h, blk, i), blk, Place(h, blk, i));
  }

  lemma {:induction false} CutLoses(h: Hash, data: seq<byte>, blk: nat, k: nat, i: nat)
    requires h.size > 0 && blk > 0 && k <= i
    ensures FrameSum(h, CutFile(h, data, blk, k), Place(h, blk, i)) == [] && !BlockVerifies(h, CutFile(h, data, blk, k), blk, i)
  {
    PlaceMono(h, blk, k, i);
  }

  /** It is honest, and block k is the first that does not verify. */
  lemma {:induction false} CutAtBlock(h: Hash, data: seq<byte>, blk: nat, k: nat)
    requires h.Valid() && h.size > 0 && blk > 0 && k < |Blocks(data, blk)|
    ensures Honest(h, CutFile(h, data, blk, k), data, blk)
    ensures FirstBad(h, CutFile(h, data, blk, k), blk, 0, |data|, k) && CutBeforeChecksum(h, CutFile(h, data, blk, k), blk, 0, |data|)
  {
    var file := CutFile(h, data, blk, k);
    forall i: nat | i < |Blocks(data, blk)|
      ensures i < k ==> BlockVerifies(h, file, blk, i) && FrameData(h, file, Place(h, blk, i), blk) == Blocks(data, blk)[i]
      ensures k <= i ==> !BlockVerifies(h, file, blk, i)
    {
      if i < k { WholeFileVerifies(h, data, blk, i); CutKeeps(h, FileOf(h, data, blk), blk, k, i); } else { CutLoses(h, data, blk, k, i); }
    }
    CutLoses(h, data, blk, k, k);
    TouchesAll(data, blk, k);
  }

  lemma TouchesAll(data: seq<byte>, blk: nat, k: nat)
    requires blk > 0 && k < |Blocks(data, blk)|
    ensures Touches(0, |data|, blk, k) && k * blk < |data|
  {
    BlockAt(data, blk, k);
    DivLower(|data|, blk, k);
    WalkPiece(0, |data|, blk, k);
  }

  /** A cache file cut off at any block boundary: the client gets what is before and takes it for everything. */
  method LooksComplete(h: Hash, data: seq<byte>, k: nat, buf: array<byte>) returns (got: seq<byte>, complete: bool, removed: bool)
    requires h.Valid() && h.size > 0 && buf.Length > 0 && k < |Blocks(data, buf.Length)|
    modifies buf
    ensures complete && removed && k * buf.Length < |data| && got == data[..k * buf.Length]
  {
    CutAtBlock(h, data, buf.Length, k);
    BeforeBlock(data, buf.Length, k);
    got, complete, removed := ServeFromCache(h, CutFile(h, data, buf.Length, k), 0, |data|, buf, data);
  }

  lemma BeforeBlock(data: seq<byte>, blk: nat, k: nat)
    requires blk > 0 && k < |Blocks(data, blk)|
    ensures 0 <= k * blk < |data| && RangeBefore(data, blk, 0, |data|, k) == data[..k * blk]
  {
    TouchesAll(data, blk, k);
    MulMono(0, k, blk);
  }

  lemma OneByteRange(blk: nat)
    requires blk > 0
    ensures Touches(0, 1, blk, 0) && forall k :: Touches(0, 1, blk, k) ==> k == 0
  {
    forall k | Touches(0, 1, blk, k) ensures k == 0 {
      WalkPiece(0, 1, blk, k);
      MulGrows(k, blk);
    }
    if blk == 1 {
      assert 1 / blk == 1;
    } else {
      DivUnique(1, blk, 0);
    }
  }
}
