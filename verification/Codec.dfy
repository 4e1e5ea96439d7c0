/**
 * The Reed-Solomon library as a parameter: what `Split`, `Encode` and `ReconstructData` are
 * relied on for, and a concrete code that meets it.
 */
module ErasureCode {
  import opened Bytes

  type Shard = seq<byte>

  ghost predicate Uniform(ss: seq<Shard>, n: nat, len: nat) {
    |ss| == n && forall i :: 0 <= i < n ==> |ss[i]| == len
  }

  /** `got` holds some of the shards `all` and nothing else. */
  ghost predicate SomeOf(got: seq<Option<Shard>>, all: seq<Shard>) {
    |got| == |all| && forall i :: 0 <= i < |got| && got[i].Some? ==> got[i].value == all[i]
  }

  function CountSome<T>(got: seq<Option<T>>): (n: nat)
    ensures n <= |got|
  {
    if got == [] then 0 else (if got[0].Some? then 1 else 0) + CountSome(got[1..])
  }

  function Values<T>(got: seq<Option<T>>): (vs: seq<T>)
    requires forall i :: 0 <= i < |got| ==> got[i].Some?
    ensures |vs| == |got| && forall i :: 0 <= i < |vs| ==> vs[i] == got[i].value
  {
    seq(|got|, i requires 0 <= i < |got| => got[i].value)
  }

  /**
   * `parity` computes the parity shards of equally long data shards; `reconstruct` rebuilds the data
   * shards from a partial set of data and parity shards.
   */
  datatype Codec = Codec(
    dataBlocks: nat,
    parityBlocks: nat,
    parity: seq<Shard> -> seq<Shard>,
    reconstruct: seq<Option<Shard>> -> Option<seq<Shard>>)
  {
    function Total(): nat { dataBlocks + parityBlocks }

    function WithParity(ds: seq<Shard>): seq<Shard> { ds + parity(ds) }

    ghost predicate Shapes() {
      forall ds: seq<Shard>, len: nat ::
        len > 0 && Uniform(ds, dataBlocks, len) ==> Uniform(parity(ds), parityBlocks, len)
    }

    /** Any dataBlocks of the shards determine the data. */
    ghost predicate Recovers() {
      forall ds: seq<Shard>, len: nat, got: seq<Option<Shard>> ::
        len > 0 && Uniform(ds, dataBlocks, len) && SomeOf(got, WithParity(ds)) && CountSome(got) >= dataBlocks
        ==> reconstruct(got) == Some(ds)
    }

    ghost predicate Valid() { dataBlocks > 0 && Shapes() && Recovers() }

    /** `EncodeData`: an empty block gives empty shards, anything else is split and coded. */
    function EncodeData(data: seq<byte>): seq<Shard>
      requires dataBlocks > 0
    {
      if data == [] then seq(Total(), _ => []) else WithParity(Split(data, dataBlocks))
    }

    /** `DecodeDataBlocks`: reconstruct only when a data shard is missing. */
    function DecodeDataBlocks(got: seq<Option<Shard>>): Option<seq<Shard>>
      requires dataBlocks <= |got|
    {
      if forall i :: 0 <= i < dataBlocks ==> got[i].Some? then Some(Values(got[..dataBlocks]))
      else reconstruct(got)
    }

    /** Decoding any sufficient part of an encoded block gives back its data shards. */
    lemma DecodesAnyQuorum(block: seq<byte>, got: seq<Option<Shard>>)
      requires Valid() && block != []
      requires SomeOf(got, EncodeData(block)) && CountSome(got) >= dataBlocks
      ensures |got| == Total()
      ensures DecodeDataBlocks(got) == Some(Split(block, dataBlocks))
    {
      var ds := Split(block, dataBlocks);
      SplitShape(block, dataBlocks);
      var len := CeilFrac(|block|, dataBlocks);
      CeilFracPositive(|block|, dataBlocks);
      assert Uniform(parity(ds), parityBlocks, len);
      assert SomeOf(got, WithParity(ds));
      if forall i :: 0 <= i < dataBlocks ==> got[i].Some? {
        assert Values(got[..dataBlocks]) == ds;
      }
    }

    /** Every shard of a block has ceil(|block| / dataBlocks) bytes. */
    lemma EncodeShape(block: seq<byte>)
      requires Valid()
      ensures CeilFrac(|block|, dataBlocks) >= 0
      ensures Uniform(EncodeData(block), Total(), CeilFrac(|block|, dataBlocks))
    {
      CeilFracPositive(|block|, dataBlocks);
      if block != [] {
        SplitShape(block, dataBlocks);
        assert Uniform(parity(Split(block, dataBlocks)), parityBlocks, CeilFrac(|block|, dataBlocks));
      }
    }
  }

  function Zeros(n: nat): seq<byte> { seq(n, _ => 0 as byte) }

  /** Cuts `data` into `count` shards of `len` bytes. */
  function Cut(data: seq<byte>, len: nat, count: nat): (ss: seq<Shard>)
    requires |data| == count * len
    ensures |ss| == count
    decreases count
  {
    if count == 0 then [] else
    assert |data| == len + (count - 1) * len;
    [data[..len]] + Cut(data[len..], len, count - 1)
  }

  /** `Split`: shards of ceil(|data| / d) bytes, the last ones zero padded. */
  function Split(data: seq<byte>, d: nat): seq<Shard>
    requires d > 0
  {
    var len := CeilFrac(|data|, d);
    CeilFracIsCeiling(|data|, d, len);
    CeilFracPositive(|data|, d);
    Cut(data + Zeros(len * d - |data|), len, d)
  }

  lemma {:induction false} CutShape(data: seq<byte>, len: nat, count: nat)
    requires |data| == count * len
    ensures Uniform(Cut(data, len, count), count, len)
    ensures Flatten(Cut(data, len, count)) == data
    decreases count
  {
    if count > 0 {
      MulSucc(count - 1, len);
      CutShape(data[len..], len, count - 1);
    } else {
      assert |data| == 0;
    }
  }

  lemma SplitShape(data: seq<byte>, d: nat)
    requires d > 0
    ensures CeilFrac(|data|, d) >= 0
    ensures Uniform(Split(data, d), d, CeilFrac(|data|, d))
  {
    SplitJoins(data, d);
  }

  /** Joining the shards gives the block back, followed by zeros only. */
  lemma SplitJoins(data: seq<byte>, d: nat)
    requires d > 0
    ensures CeilFrac(|data|, d) >= 0
    ensures Uniform(Split(data, d), d, CeilFrac(|data|, d))
    ensures var padding := CeilFrac(|data|, d) * d - |data|;
            padding >= 0 && Flatten(Split(data, d)) == data + Zeros(padding) && forall i :: 0 <= i < padding ==> Zeros(padding)[i] == 0
    ensures |data| <= |Flatten(Split(data, d))| && Flatten(Split(data, d))[..|data|] == data
  {
    var len := CeilFrac(|data|, d);
    CeilFracIsCeiling(|data|, d, len);
    CeilFracPositive(|data|, d);
    CutShape(data + Zeros(len * d - |data|), len, d);
  }

  lemma {:induction false} CountSomeAtMostOneHole<T>(got: seq<Option<T>>, j: nat, k: nat)
    requires j < k < |got| && got[j].None? && got[k].None?
    ensures CountSome(got) <= |got| - 2
  {
    if j > 0 {
      CountSomeAtMostOneHole(got[1..], j - 1, k - 1);
    } else {
      CountSomeHole(got[1..], k - 1);
    }
  }

  lemma {:induction false} CountSomeHole<T>(got: seq<Option<T>>, k: nat)
    requires k < |got| && got[k].None?
    ensures CountSome(got) <= |got| - 1
  {
    if k > 0 { CountSomeHole(got[1..], k - 1); }
  }
}

/** A concrete code: one parity shard holding the sum of the data shards modulo 256. */
module SingleParity {
  import opened Bytes
  import opened ErasureCode

  function SumAt(ss: seq<Shard>, k: nat): int {
    if ss == [] then 0 else (if k < |ss[0]| then ss[0][k] as int else 0) + SumAt(ss[1..], k)
  }

  function Parity(ds: seq<Shard>): seq<Shard> {
    if ds == [] then [[]] else [seq(|ds[0]|, k requires 0 <= k => (SumAt(ds, k) % 256) as byte)]
  }

  function Filled(got: seq<Option<Shard>>): (ss: seq<Shard>)
    ensures |ss| == |got|
  {
    seq(|got|, i requires 0 <= i < |got| => if got[i].Some? then got[i].value else [])
  }

  /** Index of the first missing shard, or |got|. */
  function Hole(got: seq<Option<Shard>>): (j: nat)
    ensures j <= |got| && (j < |got| ==> got[j].None?)
    ensures forall i :: 0 <= i < j ==> got[i].Some?
  {
    if got == [] || got[0].None? then 0 else 1 + Hole(got[1..])
  }

  /** A lost data shard is the parity minus the surviving data shards. */
  function Reconstruct(d: nat, got: seq<Option<Shard>>): Option<seq<Shard>> {
    if |got| != d + 1 then None else
    var j, rest := Hole(got), Filled(got[..d]);
    if j >= d then Some(rest)
    else if got[d].None? then None
    else
      var p := got[d].value;
      Some(rest[j := seq(|p|, k requires 0 <= k < |p| => ((p[k] as int - SumAt(rest, k)) % 256) as byte)])
  }

  function SingleParityCodec(d: nat): Codec {
    Codec(d, 1, Parity, got => Reconstruct(d, got))
  }

  lemma {:induction false} SumWithout(ss: seq<Shard>, j: nat, k: nat)
    requires j < |ss| && k < |ss[j]|
    ensures SumAt(ss, k) == SumAt(ss[j := []], k) + ss[j][k] as int
  {
    if j > 0 {
      SumWithout(ss[1..], j - 1, k);
      assert ss[j := []][1..] == ss[1..][j - 1 := []];
    } else {
      assert ss[j := []][1..] == ss[1..];
    }
  }

  lemma RebuildsOne(d: nat, ds: seq<Shard>, len: nat, got: seq<Option<Shard>>)
    requires d > 0 && len > 0 && Uniform(ds, d, len)
    requires SomeOf(got, ds + Parity(ds)) && CountSome(got) >= d
    ensures Reconstruct(d, got) == Some(ds)
  {
    var j, rest := Hole(got), Filled(got[..d]);
    if j >= d {
      assert rest == ds;
    } else {
      forall i | j < i <= d ensures got[i].Some? {
        if got[i].None? { CountSomeAtMostOneHole(got, j, i); }
      }
      assert rest == ds[j := []];
      var p := got[d].value;
      assert p == Parity(ds)[0];
      var x := seq(|p|, k requires 0 <= k < |p| => ((p[k] as int - SumAt(rest, k)) % 256) as byte);
      forall k | 0 <= k < len ensures x[k] == ds[j][k] {
        SumWithout(ds, j, k);
      }
      assert x == ds[j];
      assert rest[j := x] == ds;
    }
  }

  /** The hypotheses on the code are satisfiable for every number of data shards. */
  lemma SingleParityIsValid(d: nat)
    requires d > 0
    ensures SingleParityCodec(d).Valid()
  {
    var c := SingleParityCodec(d);
    forall ds: seq<Shard>, len: nat, got: seq<Option<Shard>> |
        len > 0 && Uniform(ds, c.dataBlocks, len) && SomeOf(got, c.WithParity(ds)) && CountSome(got) >= c.dataBlocks
      ensures c.reconstruct(got) == Some(ds)
    {
      RebuildsOne(d, ds, len, got);
    }
  }
}
