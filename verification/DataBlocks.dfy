/** Writing a byte range out of decoded data shards. */
module DataBlocks {
  import opened Bytes
  import opened ErasureCode

  /** A destination that may break after `limit` bytes. */
  class Sink {
    var data: seq<byte>
    const limit: Option<nat>
    /** Whether a write beyond the limit finds a closed pipe (io.ErrClosedPipe), or fails otherwise. */
    const closedPipe: bool

    constructor (limit: Option<nat>, closedPipe: bool)
      ensures data == [] && this.limit == limit && this.closedPipe == closedPipe && Valid()
    {
      data, this.limit, this.closedPipe := [], limit, closedPipe;
    }

    ghost predicate Valid() reads this { Fits(data) }

    predicate Fits(s: seq<byte>) { limit.None? || |s| <= limit.value }

    /** What arrives of s. */
    function Clip(s: seq<byte>): seq<byte> { if Fits(s) then s else s[..limit.value] }

    /** `io.Copy` of b. */
    method Copy(b: seq<byte>) returns (ok: bool)
      requires Valid()
      modifies this
      ensures Valid() && data == Clip(old(data) + b)
      ensures ok <==> Fits(old(data) + b)
    {
      ok := Fits(data + b);
      data := Clip(data + b);
    }
  }

  datatype WriteError = Written | Unexpected | TooFewShards | ShortData | Broken

  method GetDataBlockLen(enBlocks: seq<Shard>, dataBlocks: nat) returns (size: nat)
    requires dataBlocks <= |enBlocks|
    ensures size == |Flatten(enBlocks[..dataBlocks])|
  {
    size := 0;
    for i := 0 to dataBlocks
      invariant size == |Flatten(enBlocks[..i])|
    {
      assert enBlocks[..i + 1] == enBlocks[..i] + [enBlocks[i]];
      FlattenSnoc(enBlocks[..i], enBlocks[i]);
      size := size + |enBlocks[i]|;
    }
  }

  /** The first shard holds nothing, a part, or all of what is left to write. */
  lemma WindowOfFirst(b: seq<byte>, rest: seq<byte>, offset: nat, write: nat)
    ensures offset >= |b| ==> Window(b + rest, offset, write) == Window(rest, offset - |b|, write)
    ensures offset < |b| && write < |b[offset..]| ==> Window(b + rest, offset, write) == b[offset..][..write]
    ensures offset < |b| && write >= |b[offset..]| ==>
              Window(b + rest, offset, write) == b[offset..] + Window(rest, 0, write - (|b| - offset))
  {
    var w := Window(b + rest, offset, write);
    if offset >= |b| {
      WindowBehind(b, rest, offset, write);
    } else if write < |b| - offset {
      assert w == b[offset..][..write];
    } else {
      assert w == b[offset..] + Window(rest, 0, write - (|b| - offset));
    }
  }

  /**
   * `writeDataBlocks` writes exactly the window [offset, offset + length) of the joined data shards, cut short
   * where they end; when the destination breaks, a prefix of that window has arrived.
   */
  method WriteDataBlocks(dst: Sink, enBlocks: seq<Shard>, dataBlocks: nat, offset: int, length: int)
    returns (n: nat, err: WriteError)
    requires dst.Valid()
    modifies dst
    ensures dst.Valid()
    ensures err == Unexpected <==> offset < 0 || length < 0
    ensures err == TooFewShards <==> offset >= 0 && length >= 0 && |enBlocks| < dataBlocks
    ensures err == ShortData <==>
            offset >= 0 && length >= 0 && |enBlocks| >= dataBlocks && |Flatten(enBlocks[..dataBlocks])| < length
    ensures err == Written || err == Broken ==>
              var want := Window(Flatten(enBlocks[..dataBlocks]), offset, length);
              && dst.data == dst.Clip(old(dst.data) + want)
              && (err == Written <==> dst.Fits(old(dst.data) + want))
              && (err == Written ==> n == |want|)
    ensures err != Written && err != Broken ==> dst.data == old(dst.data)
    ensures err != Written ==> n == 0
  {
    if offset < 0 || length < 0 {
      return 0, Unexpected;
    }
    if |enBlocks| < dataBlocks {
      return 0, TooFewShards;
    }
    var size := GetDataBlockLen(enBlocks, dataBlocks);
    if size < length {
      return 0, ShortData;
    }
    n, err := CopyWindow(dst, enBlocks[..dataBlocks], offset, length);
  }

  method CopyWindow(dst: Sink, blocks: seq<Shard>, offset: nat, length: nat) returns (totalWritten: nat, err: WriteError)
    requires dst.Valid()
    modifies dst
    ensures dst.Valid()
    ensures var want := Window(Flatten(blocks), offset, length);
            && dst.data == dst.Clip(old(dst.data) + want)
            && (err == Written || err == Broken)
            && (err == Written <==> dst.Fits(old(dst.data) + want))
            && totalWritten == if err == Written then |want| else 0
  {
    var off: nat, write: nat := offset, length;
    ghost var want, d0 := Window(Flatten(blocks), offset, length), dst.data;
    ghost var sofar: seq<byte> := [];
    totalWritten := 0;
    assert blocks[0..] == blocks;
    for k := 0 to |blocks|
      invariant dst.Valid() && dst.data == d0 + sofar && totalWritten == |sofar|
      invariant want == sofar + Window(Flatten(blocks[k..]), off, write)
    {
      var block := blocks[k];
      Advance(blocks, k, off, write, sofar, want);
      if off >= |block| {
        off := off - |block|;
        continue;
      }
      block := block[off..];
      off := 0;
      if write < |block| {
        ClipPrefix(dst, d0, sofar, block[..write], want);
        var ok := dst.Copy(block[..write]);
        if !ok {
          return 0, Broken;
        }
        return totalWritten + write, Written;
      }
      ClipPrefix(dst, d0, sofar, block, want);
      var ok := dst.Copy(block);
      if !ok {
        return 0, Broken;
      }
      write := write - |block|;
      totalWritten := totalWritten + |block|;
      sofar := sofar + block;
    }
    assert blocks[|blocks|..] == [];
    assert want == sofar;
    return totalWritten, Written;
  }

  lemma Advance(blocks: seq<Shard>, k: nat, off: nat, write: nat, sofar: seq<byte>, want: seq<byte>)
    requires k < |blocks| && want == sofar + Window(Flatten(blocks[k..]), off, write)
    ensures var b, rest := blocks[k], Flatten(blocks[k + 1..]);
            && (off >= |b| ==> want == sofar + Window(rest, off - |b|, write))
            && (off < |b| && write < |b[off..]| ==> want == sofar + b[off..][..write])
            && (off < |b| && write >= |b[off..]| ==>
                want == (sofar + b[off..]) + Window(rest, 0, write - |b[off..]|) && sofar + b[off..] <= want)
  {
    var b, rest := blocks[k], Flatten(blocks[k + 1..]);
    assert blocks[k..][1..] == blocks[k + 1..];
    WindowOfFirst(b, rest, off, write);
    if off < |b| && write >= |b| - off {
      Assoc(sofar, b[off..], Window(rest, 0, write - (|b| - off)));
    }
  }

  lemma Assoc(a: seq<byte>, b: seq<byte>, c: seq<byte>)
    ensures a + (b + c) == (a + b) + c && a + b <= (a + b) + c
  {
  }

  /** Copying the next piece b of `want`: either it all arrives, or exactly the clipped `want` has arrived. */
  lemma ClipPrefix(dst: Sink, d0: seq<byte>, a: seq<byte>, b: seq<byte>, want: seq<byte>)
    requires a + b <= want
    ensures d0 + a + b == d0 + (a + b)
    ensures a + b == want ==> d0 + a + b == d0 + want
    ensures !dst.Fits(d0 + a + b) ==> dst.Clip(d0 + a + b) == dst.Clip(d0 + want) && !dst.Fits(d0 + want)
  {
    assert d0 + a + b == d0 + (a + b);
    assert d0 + want == (d0 + (a + b)) + want[|a + b|..];
  }
}
