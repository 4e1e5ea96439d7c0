/** Streams of bytes that are read until they end, one way or another. */
module Streams {
  import opened Bytes

  /** Behind its bytes a stream ends, is cut off (io.ErrUnexpectedEOF), or breaks with another error. */
  datatype Ending = Ends | CutOff | Breaks

  /** What a read reports: nil, io.EOF, io.ErrUnexpectedEOF, or another error. */
  datatype ReadStatus = Full | EOF | UnexpectedEOF | Failed

  class Source {
    const data: seq<byte>
    const ending: Ending
    var pos: nat

    ghost predicate Valid() reads this { pos <= |data| }

    /** Readers that look for other errors only take a stream that is cut off for one that ends. */
    predicate Fails() { ending == Breaks }

    constructor (data: seq<byte>, ending: Ending)
      ensures Valid() && this.data == data && this.ending == ending && pos == 0
    {
      this.data, this.ending, pos := data, ending, 0;
    }

    /** How a read of n bytes ends that gets k of them. */
    function EndOf(n: nat, k: nat): ReadStatus {
      if k >= n then Full
      else match ending
        case Breaks => Failed
        case CutOff => UnexpectedEOF
        case Ends => if k == 0 then EOF else UnexpectedEOF
    }

    /** `io.ReadFull` of n bytes. */
    method Read(n: nat) returns (p: seq<byte>, status: ReadStatus)
      requires Valid()
      modifies this
      ensures Valid() && pos == old(pos) + |p| && |p| == Min(n, |data| - old(pos))
      ensures p == data[old(pos)..pos] && status == EndOf(n, |p|)
    {
      var k := Min(n, |data| - pos);
      p, status := data[pos..pos + k], EndOf(n, k);
      pos := pos + k;
    }

    /** `io.ReadFull` into a buffer, of which the first n bytes are overwritten. */
    method ReadInto(buf: array<byte>) returns (n: nat, status: ReadStatus)
      requires Valid()
      modifies this, buf
      ensures Valid() && n == Min(buf.Length, |data| - old(pos)) && pos == old(pos) + n
      ensures buf[..n] == data[old(pos)..pos] && buf[n..] == old(buf[..])[n..]
      ensures status == EndOf(buf.Length, n)
    {
      n := Min(buf.Length, |data| - pos);
      forall i | 0 <= i < n {
        buf[i] := data[pos + i];
      }
      pos := pos + n;
      status := EndOf(buf.Length, n);
    }
  }
}
