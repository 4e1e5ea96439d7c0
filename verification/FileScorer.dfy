/**
 * The eviction queue of the disk cache: an online selection of the files to delete, which keeps at any time no
 * more than the best-scored files that together free the wanted number of bytes.
 */
module FileScorer {
  import opened Bytes

  datatype File = File(name: string, size: nat, score: real)

  // ---- the reference: sort everything, then cut ----

  /** f behind every file that scores at least as much, before the first that scores less. */
  function Insert(q: seq<File>, f: File): seq<File> {
    if q == [] then [f] else if q[0].score < f.score then [f] + q else [q[0]] + Insert(q[1..], f)
  }

  /** All files offered, highest score first, equal scores in the order of their offer. */
  function Ranked(offered: seq<File>): seq<File> {
    if offered == [] then [] else Insert(Ranked(offered[..|offered| - 1]), offered[|offered| - 1])
  }

  function Total(q: seq<File>): nat { if q == [] then 0 else q[0].size + Total(q[1..]) }

  /** The shortest prefix that frees `want` bytes, or everything if there is none. */
  function Shortest(q: seq<File>, want: int): seq<File> {
    if want <= 0 || q == [] then [] else [q[0]] + Shortest(q[1..], want - q[0].size)
  }

  ghost predicate Descending(q: seq<File>) { forall i, j :: 0 <= i < j < |q| ==> q[i].score >= q[j].score }

  function OfScore(q: seq<File>, score: real): seq<File> {
    if q == [] then [] else (if q[0].score == score then [q[0]] else []) + OfScore(q[1..], score)
  }

  // ---- Ranked is the stable descending order ----

  lemma {:induction false} InsertAt(q: seq<File>, f: File, k: nat)
    requires k <= |q| && (forall i :: 0 <= i < k ==> q[i].score >= f.score) && (k < |q| ==> q[k].score < f.score)
    ensures Insert(q, f) == q[..k] + [f] + q[k..]
  {
    if k == 0 {
      assert q[..0] == [] && q[0..] == q;
    } else {
      InsertAt(q[1..], f, k - 1);
      assert q[..k] == [q[0]] + q[1..][..k - 1] && q[1..][k - 1..] == q[k..];
    }
  }

  lemma {:induction false} InsertPlace(q: seq<File>, f: File) returns (k: nat)
    ensures k <= |q| && (forall i :: 0 <= i < k ==> q[i].score >= f.score) && (k < |q| ==> q[k].score < f.score)
    ensures Insert(q, f) == q[..k] + [f] + q[k..]
  {
    k := 0;
    while k < |q| && q[k].score >= f.score
      invariant k <= |q| && forall i :: 0 <= i < k ==> q[i].score >= f.score
    {
      k := k + 1;
    }
    InsertAt(q, f, k);
  }

  lemma InsertDescends(q: seq<File>, f: File)
    requires Descending(q)
    ensures Descending(Insert(q, f))
  {
    var k := InsertPlace(q, f);
  }

  lemma OfScoreCons(f: File, q: seq<File>, score: real)
    ensures OfScore([f] + q, score) == (if f.score == score then [f] else []) + OfScore(q, score)
  {
    assert ([f] + q)[1..] == q;
  }

  lemma {:induction false} OfScoreConcat(a: seq<File>, b: seq<File>, score: real)
    ensures OfScore(a + b, score) == OfScore(a, score) + OfScore(b, score)
  {
    if a == [] {
      assert a + b == b;
    } else {
      var f, rest := a[0], a[1..];
      OfScoreConcat(rest, b, score);
      OfScoreCons(f, rest + b, score);
      OfScoreCons(f, rest, score);
      assert a + b == [f] + (rest + b) && a == [f] + rest;
    }
  }

  lemma {:induction false} NoneOfScore(q: seq<File>, score: real)
    requires forall i :: 0 <= i < |q| ==> q[i].score != score
    ensures OfScore(q, score) == []
  {
    if q != [] {
      NoneOfScore(q[1..], score);
    }
  }

  lemma OfScoreMoved(a: seq<File>, b: seq<File>, f: File, score: real)
    requires score == f.score ==> OfScore(b, score) == []
    ensures OfScore(a + [f] + b, score) == OfScore(a + b + [f], score)
  {
    OfScoreConcat(a + [f], b, score);
    OfScoreConcat(a, [f], score);
    OfScoreConcat(a, b, score);
    OfScoreConcat(a + b, [f], score);
    assert OfScore([f], score) == (if f.score == score then [f] else []) + OfScore([], score);
  }

  lemma InsertIsStable(q: seq<File>, f: File, score: real)
    requires Descending(q)
    ensures OfScore(Insert(q, f), score) == OfScore(q + [f], score)
  {
    var k := InsertPlace(q, f);
    var a, b := q[..k], q[k..];
    assert q == a + b;
    if score == f.score {
      NoneOfScore(b, score);
    }
    OfScoreMoved(a, b, f, score);
  }

  lemma {:induction false} RankedDescends(offered: seq<File>)
    ensures Descending(Ranked(offered))
  {
    if offered != [] {
      RankedDescends(offered[..|offered| - 1]);
      InsertDescends(Ranked(offered[..|offered| - 1]), offered[|offered| - 1]);
    }
  }

  lemma {:induction false} RankedIsStable(offered: seq<File>, score: real)
    ensures OfScore(Ranked(offered), score) == OfScore(offered, score)
  {
    if offered != [] {
      var init, f := offered[..|offered| - 1], offered[|offered| - 1];
      RankedIsStable(init, score);
      RankedDescends(init);
      InsertIsStable(Ranked(init), f, score);
      OfScoreConcat(Ranked(init), [f], score);
      OfScoreConcat(init, [f], score);
      assert offered == init + [f];
    }
  }

  lemma {:induction false} OfScoreKeeps(q: seq<File>, f: File)
    ensures f in OfScore(q, f.score) <==> f in q
  {
    if q != [] {
      OfScoreKeeps(q[1..], f);
      assert q == [q[0]] + q[1..];
    }
  }

  ghost predicate SameOrder(a: seq<File>, b: seq<File>) { forall score: real :: OfScore(a, score) == OfScore(b, score) }

  lemma SameTop(a: seq<File>, b: seq<File>)
    requires Descending(a) && Descending(b) && SameOrder(a, b) && a != []
    ensures b != [] && a[0] == b[0] && SameOrder(a[1..], b[1..])
  {
    OfScoreKeeps(a, a[0]);
    OfScoreKeeps(b, a[0]);
    OfScoreKeeps(b, b[0]);
    OfScoreKeeps(a, b[0]);
    var top := a[0].score;
    assert b[0].score == top;
    assert OfScore(a, top)[0] == a[0] && OfScore(b, top)[0] == b[0];
    forall score: real ensures OfScore(a[1..], score) == OfScore(b[1..], score) {
      var one := if top == score then [a[0]] else [];
      assert OfScore(a, score)[|one|..] == OfScore(a[1..], score);
      assert OfScore(b, score)[|one|..] == OfScore(b[1..], score);
    }
  }

  /** There is only one descending sequence with given subsequences of equal score. */
  lemma {:induction false} StableOrderIsUnique(a: seq<File>, b: seq<File>)
    requires Descending(a) && Descending(b) && SameOrder(a, b)
    ensures a == b
  {
    if a != [] {
      SameTop(a, b);
      StableOrderIsUnique(a[1..], b[1..]);
      assert a == [a[0]] + a[1..] && b == [b[0]] + b[1..];
    } else if b != [] {
      SameTop(b, a);
    }
  }

  /**
   * Ranked is the stable descending order: a sequence is Ranked(offered) exactly if its scores descend and files
   * of equal score stand in it as they were offered.
   */
  lemma RankedIsTheStableOrder(q: seq<File>, offered: seq<File>)
    ensures q == Ranked(offered) <==> Descending(q) && SameOrder(q, offered)
  {
    RankedDescends(offered);
    forall score: real ensures OfScore(Ranked(offered), score) == OfScore(offered, score) {
      RankedIsStable(offered, score);
    }
    if Descending(q) && SameOrder(q, offered) {
      StableOrderIsUnique(q, Ranked(offered));
    }
  }

  // ---- Shortest is the shortest sufficient prefix ----

  ghost predicate IsShortest(p: seq<File>, q: seq<File>, want: int) {
    && p <= q
    && (Total(p) >= want || p == q)
    && forall r :: r <= p && r != p ==> Total(r) < want
  }

  lemma {:induction false} ShortestIsShortest(q: seq<File>, want: int)
    ensures IsShortest(Shortest(q, want), q, want)
  {
    if want > 0 && q != [] {
      ShortestIsShortest(q[1..], want - q[0].size);
      var p, p' := Shortest(q, want), Shortest(q[1..], want - q[0].size);
      assert q == [q[0]] + q[1..] && p[1..] == p';
      forall r | r <= p && r != p ensures Total(r) < want {
        if r != [] {
          assert r[0] == q[0] && r[1..] <= p' && r[1..] != p' by { assert r == [r[0]] + r[1..]; }
        }
      }
    }
  }

  lemma {:induction false} TotalConcat(a: seq<File>, b: seq<File>)
    ensures Total(a + b) == Total(a) + Total(b)
  {
    if a == [] {
      assert a + b == b;
    } else {
      assert (a + b)[1..] == a[1..] + b;
      TotalConcat(a[1..], b);
    }
  }

  lemma TotalPrefix(r: seq<File>, q: seq<File>)
    requires r <= q
    ensures Total(r) <= Total(q)
  {
    assert q == r + q[|r|..];
    TotalConcat(r, q[|r|..]);
  }

  /** It is the only one. */
  lemma ShortestIsUnique(p: seq<File>, q: seq<File>, want: int)
    requires IsShortest(p, q, want)
    ensures p == Shortest(q, want)
  {
    var r := Shortest(q, want);
    ShortestIsShortest(q, want);
    assert p <= r || r <= p;
  }

  // ---- what one step does to the selection ----

  lemma {:induction false} ShortestOfShortest(q: seq<File>, want: int, less: int)
    requires less <= want
    ensures Shortest(Shortest(q, want), less) == Shortest(q, less)
  {
    if less > 0 && q != [] {
      ShortestOfShortest(q[1..], want - q[0].size, less - q[0].size);
      assert Shortest(q, want)[1..] == Shortest(q[1..], want - q[0].size);
    }
  }

  /** It is enough to insert a new file into the selection: nothing outside it ever comes back. */
  lemma {:induction false} InsertCommutes(q: seq<File>, f: File, want: int)
    ensures Shortest(Insert(Shortest(q, want), f), want) == Shortest(Insert(q, f), want)
  {
    if want > 0 && q != [] {
      var p := Shortest(q, want);
      var p' := Shortest(q[1..], want - q[0].size);
      assert p[1..] == p';
      if q[0].score < f.score {
        assert ([f] + q)[1..] == q && ([f] + p)[1..] == p;
        ShortestOfShortest(q, want, want - f.size);
      } else {
        InsertCommutes(q[1..], f, want - q[0].size);
        assert ([q[0]] + Insert(q[1..], f))[1..] == Insert(q[1..], f);
        assert ([q[0]] + Insert(p', f))[1..] == Insert(p', f);
      }
    }
  }

  /** A file that scores less than all of a sufficient selection does not change it. */
  lemma {:induction false} InsertSkipped(q: seq<File>, f: File, want: int)
    requires var p := Shortest(q, want); Total(p) >= want && forall i :: 0 <= i < |p| ==> p[i].score >= f.score
    ensures Shortest(Insert(q, f), want) == Shortest(q, want)
  {
    if want > 0 && q != [] {
      var p, p' := Shortest(q, want), Shortest(q[1..], want - q[0].size);
      assert p[0] == q[0] && p[1..] == p';
      forall i | 0 <= i < |p'| ensures p'[i].score >= f.score {
        assert p'[i] == p[i + 1];
      }
      InsertSkipped(q[1..], f, want - q[0].size);
      assert ([q[0]] + Insert(q[1..], f))[1..] == Insert(q[1..], f);
    }
  }

  lemma DescendingPrefix(p: seq<File>, q: seq<File>)
    requires p <= q && Descending(q) && p != []
    ensures forall i :: 0 <= i < |p| ==> p[i].score >= p[|p| - 1].score
  {
    forall i | 0 <= i < |p| ensures p[i].score >= p[|p| - 1].score {
      assert p[i] == q[i] && p[|p| - 1] == q[|p| - 1];
    }
  }

  lemma SkipWorse(offered: seq<File>, f: File, want: int)
    requires var p := Shortest(Ranked(offered), want); p != [] && Total(p) >= want && f.score < p[|p| - 1].score
    ensures Shortest(Insert(Ranked(offered), f), want) == Shortest(Ranked(offered), want)
  {
    var q, p := Ranked(offered), Shortest(Ranked(offered), want);
    RankedDescends(offered);
    ShortestIsShortest(q, want);
    DescendingPrefix(p, q);
    InsertSkipped(q, f, want);
  }

  /** The selection q takes up another file: it is inserted and trimmed, or not even inserted. */
  lemma {:induction false} OfferNext(offered: seq<File>, f: File, q: seq<File>, want: int, outdated: nat)
    requires q == Shortest(Ranked(offered), want) && (outdated == 0 || want == 0)
    ensures Shortest(Insert(q, f), want - outdated) == Shortest(Ranked(offered + [f]), want)
    ensures q != [] && Total(q) >= want && f.score < q[|q| - 1].score ==> q == Shortest(Ranked(offered + [f]), want)
  {
    assert (offered + [f])[..|offered|] == offered;
    assert Ranked(offered + [f]) == Insert(Ranked(offered), f);
    InsertCommutes(Ranked(offered), f, want);
    if q != [] && Total(q) >= want && f.score < q[|q| - 1].score {
      SkipWorse(offered, f, want);
    }
  }

  /** q is the selection from the files offered; once nothing is wanted, the byte count may be out of date. */
  ghost predicate Chosen(offered: seq<File>, q: seq<File>, want: int, bytes: int) {
    && q == Shortest(Ranked(offered), want) && want >= 0
    && (bytes == Total(q) || (want == 0 && q == [] && bytes >= 0))
  }

  lemma {:induction false} ChosenInsert(offered: seq<File>, f: File, q: seq<File>, want: int, bytes: int, q': seq<File>, bytes': int)
    requires q' == Shortest(Insert(q, f), want - (bytes - Total(q))) && bytes' - Total(q') == bytes - Total(q)
    requires Chosen(offered, q, want, bytes)
    ensures Chosen(offered + [f], q', want, bytes')
  {
    var outdated := bytes - Total(q);
    OfferNext(offered, f, q, want, outdated);
    if outdated != 0 {
      NothingWanted(Insert(q, f), want - outdated);
    }
  }

  lemma {:induction false} NothingWanted(q: seq<File>, want: int)
    requires want <= 0
    ensures Shortest(q, want) == [] && Total([]) == 0
  {
  }

  /** With an outdated count nothing inserted into an empty queue stays there. */
  lemma {:induction false} DrainedInsert(f: File, want: int, bytes: int, q': seq<File>, bytes': int)
    requires q' == Shortest(Insert([], f), want - (bytes - Total([]))) && bytes' - Total(q') == bytes - Total([]) && bytes >= want
    ensures q' == [] && bytes' == bytes
  {
    NothingWanted(Insert([], f), want - bytes);
  }

  lemma {:induction false} ChosenSkip(offered: seq<File>, f: File, q: seq<File>, want: int, bytes: int)
    requires bytes >= want && q != [] && f.score < q[|q| - 1].score
    requires Chosen(offered, q, want, bytes)
    ensures Chosen(offered + [f], q, want, bytes)
  {
    OfferNext(offered, f, q, want, 0);
  }

  lemma {:induction false} InsertTotal(q: seq<File>, f: File)
    ensures Total(Insert(q, f)) == Total(q) + f.size
  {
    if q == [] {
      assert Total([f]) == f.size + Total([]);
    } else if q[0].score < f.score {
      assert ([f] + q)[1..] == q;
    } else {
      InsertTotal(q[1..], f);
    }
  }

  lemma TotalSnoc(q: seq<File>)
    requires q != []
    ensures Total(q) == Total(q[..|q| - 1]) + q[|q| - 1].size
  {
    var init, last := q[..|q| - 1], q[|q| - 1];
    assert q == init + [last];
    TotalConcat(init, [last]);
    assert Total([last]) == last.size + Total([]);
  }

  /** Raising the target leaves the selection right exactly if it still suffices or holds everything. */
  lemma RaisedTarget(q: seq<File>, want: int, n: nat)
    ensures Shortest(q, want + n) == Shortest(q, want)
       <==> Total(Shortest(q, want)) >= want + n || Shortest(q, want) == q
  {
    var p := Shortest(q, want);
    ShortestIsShortest(q, want);
    ShortestIsShortest(q, want + n);
    if Total(p) >= want + n || p == q {
      assert IsShortest(p, q, want + n);
      ShortestIsUnique(p, q, want + n);
    }
  }

  // ---- scores ----

  function ClampUnit(x: real): real { if x < 0.0 then 0.0 else if x > 1.0 then 1.0 else x }

  /** Size as a fraction of what is to be freed. */
  function SizeWeight(size: nat, target: int): real
    requires target > 0
  {
    ClampUnit(size as real * (1.0 / target as real))
  }

  /** 1 without hits, 0 at maxHits. */
  function HitsWeight(hits: int, maxHits: int): real
    requires maxHits > 0
  {
    1.0 - ClampUnit(hits as real / maxHits as real)
  }

  function Weight(size: nat, hits: int, target: int, maxHits: int): real
    requires target > 0 && maxHits > 0
  {
    1.0 + 0.25 * SizeWeight(size, target) + 0.25 * HitsWeight(hits, maxHits)
  }

  function Score(age: int, size: nat, hits: int, target: int, maxHits: int): real
    requires target > 0 && maxHits > 0
  {
    age as real * Weight(size, hits, target, maxHits)
  }

  lemma RealMulMono(x: real, y: real, z: real)
    requires x <= y && 0.0 <= z
    ensures x * z <= y * z && z * x <= z * y
  {
  }

  lemma RealMulStrict(x: real, y: real, z: real)
    requires x < y && 0.0 < z
    ensures x * z < y * z
  {
  }

  lemma RealDivMono(x: real, y: real, z: real)
    requires x <= y && 0.0 < z
    ensures x / z <= y / z
  {
    var a, b := x / z, y / z;
    assert a * z == x && b * z == y;
    if b < a {
      RealMulStrict(b, a, z);
    }
  }

  lemma ReciprocalPositive(z: real)
    requires 0.0 < z
    ensures 0.0 <= 1.0 / z
  {
    var u := 1.0 / z;
    assert u * z == 1.0;
    if u < 0.0 {
      RealMulStrict(u, 0.0, z);
    }
  }

  lemma ClampMono(x: real, y: real)
    requires x <= y
    ensures 0.0 <= ClampUnit(x) <= ClampUnit(y) <= 1.0
  {
  }

  lemma SizeWeightMono(size: nat, size': nat, target: int)
    requires target > 0 && size <= size'
    ensures 0.0 <= SizeWeight(size, target) <= SizeWeight(size', target) <= 1.0
  {
    var t := target as real;
    ReciprocalPositive(t);
    RealMulMono(size as real, size' as real, 1.0 / t);
    ClampMono(size as real * (1.0 / t), size' as real * (1.0 / t));
  }

  lemma HitsWeightMono(hits: int, hits': int, maxHits: int)
    requires maxHits > 0 && hits' <= hits
    ensures 0.0 <= HitsWeight(hits, maxHits) <= HitsWeight(hits', maxHits) <= 1.0
  {
    var m := maxHits as real;
    RealDivMono(hits' as real, hits as real, m);
    ClampMono(hits' as real / m, hits as real / m);
  }

  lemma WeightMono(size: nat, hits: int, size': nat, hits': int, target: int, maxHits: int)
    requires target > 0 && maxHits > 0 && size <= size' && hits' <= hits
    ensures 1.0 <= Weight(size, hits, target, maxHits) <= Weight(size', hits', target, maxHits) <= 1.5
  {
    SizeWeightMono(size, size', target);
    HitsWeightMono(hits, hits', maxHits);
  }

  lemma Products(a: real, a': real, w: real, w': real)
    requires 0.0 <= a <= a' && 0.0 <= w <= w'
    ensures a * w <= a' * w'
  {
    RealMulMono(a, a', w);
    RealMulMono(w, w', a');
  }

  /** The older, the larger and the less used a file is, the higher its score. */
  lemma ScoreMonotone(age: nat, size: nat, hits: int, age': nat, size': nat, hits': int, target: int, maxHits: int)
    requires target > 0 && maxHits > 0 && age <= age' && size <= size' && hits' <= hits
    ensures Score(age, size, hits, target, maxHits) <= Score(age', size', hits', target, maxHits)
  {
    WeightMono(size, hits, size', hits', target, maxHits);
    Products(age as real, age' as real, Weight(size, hits, target, maxHits), Weight(size', hits', target, maxHits));
  }

  /** Age dominates: size and hits raise a score by at most half. */
  lemma ScoreBounds(age: nat, size: nat, hits: int, target: int, maxHits: int)
    requires target > 0 && maxHits > 0
    ensures age as real <= Score(age, size, hits, target, maxHits) <= 1.5 * age as real
  {
    WeightMono(size, hits, size, hits, target, maxHits);
    Products(age as real, age as real, 1.0, Weight(size, hits, target, maxHits));
    Products(age as real, age as real, Weight(size, hits, target, maxHits), 1.5);
  }

  lemma FractionIs(n: nat, d: nat)
    requires 0 < d
    ensures n <= d ==> 0.0 <= n as real / d as real <= 1.0 && (n as real / d as real) * d as real == n as real
    ensures n >= d ==> n as real / d as real >= 1.0
    ensures n as real * (1.0 / d as real) == n as real / d as real
  {
    var x, z := n as real, d as real;
    var u, v := x / z, 1.0 / z;
    assert u * z == x && v * z == 1.0;
    assert (x * v) * z == x;
    if x * v < u { RealMulStrict(x * v, u, z); } else if u < x * v { RealMulStrict(u, x * v, z); }
    if u < 0.0 { RealMulStrict(u, 0.0, z); }
    if n <= d && u > 1.0 { RealMulStrict(1.0, u, z); }
    if n >= d && u < 1.0 { RealMulStrict(u, 1.0, z); }
  }

  /** Without size and with all hits the score is the age. */
  lemma ScoreBase(age: int, target: int, maxHits: int)
    requires target > 0 && maxHits > 0
    ensures Score(age, 0, maxHits, target, maxHits) == age as real
  {
    FractionIs(0, target);
    FractionIs(maxHits, maxHits);
    assert maxHits as real / maxHits as real == 1.0;
  }

  /** Size adds its share of the target, up to a quarter of the age. */
  lemma ScoreSize(age: int, size: nat, hits: int, target: int, maxHits: int)
    requires target > 0 && maxHits > 0
    ensures size <= target ==>
              var more := Score(age, size, hits, target, maxHits) - Score(age, 0, hits, target, maxHits);
              more * target as real == 0.25 * age as real * size as real
    ensures size >= target ==> Score(age, size, hits, target, maxHits) == Score(age, 0, hits, target, maxHits) + 0.25 * age as real
  {
    FractionIs(size, target);
    FractionIs(0, target);
    var a, s, w, t := age as real, SizeWeight(size, target), 0.25 * HitsWeight(hits, maxHits), target as real;
    assert a * (1.0 + 0.25 * s + w) - a * (1.0 + w) == 0.25 * a * s;
    if size <= target { assert (0.25 * a * s) * t == 0.25 * a * (s * t); }
  }

  /** Every hit less than maxHits adds its share, up to another quarter. */
  lemma ScoreHits(age: int, size: nat, hits: int, target: int, maxHits: int)
    requires target > 0 && maxHits > 0
    ensures 0 <= hits <= maxHits ==>
              var more := Score(age, size, hits, target, maxHits) - Score(age, size, maxHits, target, maxHits);
              more * maxHits as real == 0.25 * age as real * (maxHits - hits) as real
    ensures hits >= maxHits ==> Score(age, size, hits, target, maxHits) == Score(age, size, maxHits, target, maxHits)
    ensures hits <= 0 ==> Score(age, size, hits, target, maxHits) == Score(age, size, maxHits, target, maxHits) + 0.25 * age as real
  {
    FractionIs(maxHits, maxHits);
    var a, s, m := age as real, 0.25 * SizeWeight(size, target), maxHits as real;
    var u, v := HitsWeight(hits, maxHits), HitsWeight(maxHits, maxHits);
    assert m / m == 1.0 && v == 0.0;
    assert a * (1.0 + s + 0.25 * u) - a * (1.0 + s + 0.25 * v) == 0.25 * a * u;
    if 0 <= hits {
      FractionIs(hits, maxHits);
      if hits <= maxHits {
        assert u * m == (maxHits - hits) as real;
        assert (0.25 * a * u) * m == 0.25 * a * (u * m);
      }
    } else {
      RealDivMono(hits as real, 0.0, m);
      assert 0.0 / m == 0.0;
    }
  }

  lemma ClampStrict(x: real, y: real)
    requires x < y && x < 1.0 && 0.0 < y
    ensures ClampUnit(x) < ClampUnit(y)
  {
  }

  lemma SizeWeightStrict(size: nat, size': nat, target: int)
    requires target > 0 && size < size' && size < target
    ensures SizeWeight(size, target) < SizeWeight(size', target)
  {
    var u := 1.0 / target as real;
    FractionIs(size, target);
    FractionIs(size', target);
    RealDivStrict(size as real, size' as real, target as real);
    RealDivStrict(size as real, target as real, target as real);
    assert target as real / target as real == 1.0;
    ClampStrict(size as real * u, size' as real * u);
  }

  lemma RealDivStrict(x: real, y: real, z: real)
    requires x < y && 0.0 < z
    ensures x / z < y / z
  {
    var a, b := x / z, y / z;
    assert a * z == x && b * z == y;
    if b <= a { RealMulMono(b, a, z); }
  }

  lemma HitsWeightStrict(hits: int, hits': int, maxHits: int)
    requires maxHits > 0 && hits' < hits && 0 < hits && hits' < maxHits
    ensures HitsWeight(hits, maxHits) < HitsWeight(hits', maxHits)
  {
    var m := maxHits as real;
    RealDivStrict(hits' as real, hits as real, m);
    RealDivStrict(hits' as real, m, m);
    RealDivStrict(0.0, hits as real, m);
    assert m / m == 1.0 && 0.0 / m == 0.0;
    ClampStrict(hits' as real / m, hits as real / m);
  }

  lemma WeightStrict(s: real, h: real, s': real, h': real)
    requires s <= s' && h <= h' && (s < s' || h < h')
    ensures 1.0 + 0.25 * s + 0.25 * h < 1.0 + 0.25 * s' + 0.25 * h'
  {
  }

  lemma HeavierScoresHigher(age: nat, size: nat, hits: int, size': nat, hits': int, target: int, maxHits: int)
    requires target > 0 && maxHits > 0 && age > 0 && Weight(size, hits, target, maxHits) < Weight(size', hits', target, maxHits)
    ensures Score(age, size, hits, target, maxHits) < Score(age, size', hits', target, maxHits)
  {
    var a, w, w' := age as real, Weight(size, hits, target, maxHits), Weight(size', hits', target, maxHits);
    RealMulStrict(w, w', a);
    assert a * w == w * a && a * w' == w' * a;
  }

  /** Of two files of the same age, the one that is larger, short of the target, and not used more has the higher score. */
  lemma LargerScoresHigher(age: nat, size: nat, hits: int, size': nat, hits': int, target: int, maxHits: int)
    requires target > 0 && maxHits > 0 && age > 0 && size < size' && size < target && hits' <= hits
    ensures Score(age, size, hits, target, maxHits) < Score(age, size', hits', target, maxHits)
  {
    SizeWeightStrict(size, size', target);
    HitsWeightMono(hits, hits', maxHits);
    WeightStrict(SizeWeight(size, target), HitsWeight(hits, maxHits), SizeWeight(size', target), HitsWeight(hits', maxHits));
    HeavierScoresHigher(age, size, hits, size', hits', target, maxHits);
  }

  /** And so has the one that is used less, between none and maxHits, and is not smaller. */
  lemma LessUsedScoresHigher(age: nat, size: nat, hits: int, size': nat, hits': int, target: int, maxHits: int)
    requires target > 0 && maxHits > 0 && age > 0 && size <= size' && hits' < hits && 0 < hits && hits' < maxHits
    ensures Score(age, size, hits, target, maxHits) < Score(age, size', hits', target, maxHits)
  {
    SizeWeightMono(size, size', target);
    HitsWeightStrict(hits, hits', maxHits);
    WeightStrict(SizeWeight(size, target), HitsWeight(hits, maxHits), SizeWeight(size', target), HitsWeight(hits', maxHits));
    HeavierScoresHigher(age, size, hits, size', hits', target, maxHits);
  }

  // ---- the scorer ----

  class Scorer {
    var saveBytes: int
    var queuedBytes: int
    var queue: seq<File>
    const now: int
    const maxHits: int
    /** The number of bytes wanted at first, the unit of the size weight. */
    const target: int
    /** All files offered so far. */
    ghost var offered: seq<File>

    /** The queue is the shortest prefix of all files offered, best first, that frees saveBytes. */
    ghost predicate Selects()
      reads this
    {
      queue == Shortest(Ranked(offered), saveBytes)
    }

    /** Once nothing more is to be freed, queuedBytes may be out of date. */
    ghost predicate Valid()
      reads this
    {
      Chosen(offered, queue, saveBytes, queuedBytes) && target > 0 && maxHits > 0
    }

    /** Nothing is queued, and what queuedBytes still counts exceeds all that is to be freed. */
    ghost predicate Drained()
      reads this
    {
      queue == [] && queuedBytes >= saveBytes
    }

    constructor (saveBytes: int, now: int, maxHits: int)
      requires saveBytes > 0 && now >= 0 && maxHits > 0
      ensures Valid() && offered == [] && this.saveBytes == target == saveBytes && this.now == now && this.maxHits == maxHits
    {
      this.saveBytes, this.now, this.maxHits, target := saveBytes, now, maxHits, saveBytes;
      queue, queuedBytes, offered := [], 0, [];
    }

    ghost function FileOf(name: string, lastAccess: int, size: nat, hits: int): File
      requires target > 0 && maxHits > 0
    {
      File(name, size, Score(now - lastAccess, size, hits, target, maxHits))
    }

    /** The selection stays right if it was; a scorer drained by an outdated byte count never selects a file again. */
    method AddFile(name: string, lastAccess: int, size: nat, hits: int)
      requires target > 0 && maxHits > 0
      modifies this
      ensures saveBytes == old(saveBytes) && offered == old(offered) + [FileOf(name, lastAccess, size, hits)]
      ensures old(Valid()) ==> Valid()
      ensures old(Drained()) ==> Drained() && queuedBytes == old(queuedBytes)
    {
      Enqueue(File(name, size, Score(now - lastAccess, size, hits, target, maxHits)));
    }

    method Enqueue(file: File)
      modifies this
      ensures saveBytes == old(saveBytes) && offered == old(offered) + [file]
      ensures old(Valid()) ==> Valid()
      ensures old(Drained()) ==> Drained() && queuedBytes == old(queuedBytes)
    {
      ghost var before := offered;
      offered := offered + [file];
      if queuedBytes >= saveBytes && queue != [] && file.score < queue[|queue| - 1].score {
        if Chosen(before, queue, saveBytes, queuedBytes) { ChosenSkip(before, file, queue, saveBytes, queuedBytes); }
        return;
      }
      ghost var q, bytes := queue, queuedBytes;
      InsertAndTrim(file);
      if Chosen(before, q, saveBytes, bytes) {
        ChosenInsert(before, file, q, saveBytes, bytes, queue, queuedBytes);
      }
      if q == [] && bytes >= saveBytes {
        DrainedInsert(file, saveBytes, bytes, queue, queuedBytes);
      }
    }

    method InsertAndTrim(file: File)
      modifies this`queue, this`queuedBytes
      ensures queue == Shortest(Insert(old(queue), file), saveBytes - old(queuedBytes - Total(queue)))
      ensures queuedBytes - Total(queue) == old(queuedBytes - Total(queue))
    {
      InsertFile(file);
      TrimQueue();
    }

    method InsertFile(file: File)
      modifies this`queue, this`queuedBytes
      ensures queue == Insert(old(queue), file) && Total(queue) == Total(old(queue)) + file.size
      ensures queuedBytes == old(queuedBytes) + file.size
    {
      var e := 0;
      while e < |queue|
        invariant e <= |queue| && queue == old(queue)
        invariant forall i :: 0 <= i < e ==> queue[i].score >= file.score
      {
        if queue[e].score < file.score {
          break;
        }
        e := e + 1;
      }
      InsertAt(queue, file, e);
      InsertTotal(queue, file);
      queuedBytes := queuedBytes + file.size;
      queue := queue[..e] + [file] + queue[e..];
    }

    /** It goes by queuedBytes, so what that counts without a file in the queue is missing in what the rest frees. */
    method TrimQueue()
      modifies this`queue, this`queuedBytes
      ensures queue == Shortest(old(queue), saveBytes - old(queuedBytes - Total(queue)))
      ensures queuedBytes - Total(queue) == old(queuedBytes - Total(queue))
    {
      ghost var all, want := queue, saveBytes - (queuedBytes - Total(queue));
      while queue != []
        invariant queue <= all && (Total(queue) >= want || queue == all)
        invariant queuedBytes - Total(queue) == old(queuedBytes - Total(queue))
        decreases |queue|
      {
        TotalSnoc(queue);
        var v := queue[|queue| - 1];
        if queuedBytes - v.size < saveBytes {
          break;
        }
        queue := queue[..|queue| - 1];
        queuedBytes := queuedBytes - v.size;
      }
      TrimmedIsShortest(queue, all, want);
    }

    /**
     * Lowering the target keeps the selection right. Raising it does so exactly if the selection still suffices or
     * holds every file, files dropped before do not come back; and queuedBytes, which is not reset when a target lowered
     * to nothing clears the queue, is then out of date.
     */
    method AdjustSaveBytes(n: int) returns (more: bool)
      requires Valid()
      modifies this`saveBytes, this`queue, this`queuedBytes
      ensures saveBytes == Max(0, old(saveBytes) + n) && more == (saveBytes > 0)
      ensures n <= 0 ==> Valid()
      ensures saveBytes == 0 ==> queue == [] && queuedBytes == old(queuedBytes)
      ensures n > 0 ==>
                && queue == old(queue) && queuedBytes == old(queuedBytes)
                && (Selects() <==> Total(queue) >= saveBytes || |queue| == |offered|)
                && (Valid() <==> Selects() && queuedBytes == Total(queue))
                && (old(saveBytes) > 0 ==> queuedBytes == Total(queue))
                && (old(saveBytes) == 0 ==> (Drained() <==> n <= queuedBytes))
    {
      ghost var all, want := Ranked(offered), saveBytes;
      saveBytes := saveBytes + n;
      if saveBytes <= 0 {
        queue := [];
        saveBytes := 0;
        return false;
      }
      if n < 0 {
        TrimQueue();
        ShortestOfShortest(all, want, saveBytes);
      } else {
        RaisedTarget(all, want, n);
        ShortestIsShortest(all, want);
        RankedLength(offered);
      }
      return true;
    }

    method Take(event: Event)
      requires Valid()
      modifies this
      ensures Valid()
      ensures offered == old(offered) + OfferOf(event, now, target, maxHits)
      ensures saveBytes == Max(0, old(saveBytes) - FreedOf(event))
    {
      match event {
        case Offer(name, lastAccess, size, hits) =>
          AddFile(name, lastAccess, size, hits);
        case Freed(n) =>
          var _ := AdjustSaveBytes(-(n as int));
      }
    }

    method FileNames() returns (names: seq<string>)
      ensures names == Names(queue)
    {
      names := [];
      var i := 0;
      while i < |queue|
        invariant i <= |queue| && names == Names(queue[..i])
      {
        NamesSnoc(queue[..i], queue[i]);
        assert queue[..i + 1] == queue[..i] + [queue[i]];
        names := names + [queue[i].name];
        i := i + 1;
      }
      assert queue[..i] == queue;
    }
  }

  function Names(q: seq<File>): seq<string> { if q == [] then [] else [q[0].name] + Names(q[1..]) }

  lemma {:induction false} NamesSnoc(q: seq<File>, f: File)
    ensures Names(q + [f]) == Names(q) + [f.name]
  {
    if q == [] {
      assert Names([f]) == [f.name] + Names([]);
    } else {
      assert (q + [f])[1..] == q[1..] + [f];
      NamesSnoc(q[1..], f);
    }
  }

  lemma {:induction false} InsertLength(q: seq<File>, f: File)
    ensures |Insert(q, f)| == |q| + 1
  {
    if q != [] && q[0].score >= f.score {
      InsertLength(q[1..], f);
    }
  }

  lemma {:induction false} RankedLength(offered: seq<File>)
    ensures |Ranked(offered)| == |offered|
  {
    if offered != [] {
      RankedLength(offered[..|offered| - 1]);
      InsertLength(Ranked(offered[..|offered| - 1]), offered[|offered| - 1]);
    }
  }

  /** Dropping files from the back while the rest suffices ends with the shortest prefix. */
  lemma TrimmedIsShortest(q: seq<File>, all: seq<File>, want: int)
    requires q <= all && (Total(q) >= want || q == all)
    requires q == [] || Total(q) - q[|q| - 1].size < want || want <= 0
    requires want <= 0 ==> q == []
    ensures q == Shortest(all, want)
  {
    if q != [] {
      TotalSnoc(q);
      var init := q[..|q| - 1];
      forall r | r <= q && r != q ensures Total(r) < want {
        assert r <= init;
        TotalPrefix(r, init);
      }
    }
    ShortestIsUnique(q, all, want);
  }

  // ---- whole runs ----

  /** What a purge does with the scorer: offer a file, or report bytes already freed. */
  datatype Event = Offer(name: string, lastAccess: int, size: nat, hits: int) | Freed(bytes: nat)

  ghost function OfferOf(e: Event, now: int, target: int, maxHits: int): seq<File>
    requires target > 0 && maxHits > 0
  {
    if e.Offer? then [File(e.name, e.size, Score(now - e.lastAccess, e.size, e.hits, target, maxHits))] else []
  }

  ghost function OfferedBy(events: seq<Event>, now: int, target: int, maxHits: int): seq<File>
    requires target > 0 && maxHits > 0
  {
    if events == [] then [] else OfferOf(events[0], now, target, maxHits) + OfferedBy(events[1..], now, target, maxHits)
  }

  function FreedOf(e: Event): nat { if e.Freed? then e.bytes else 0 }

  function FreedBy(events: seq<Event>): nat { if events == [] then 0 else FreedOf(events[0]) + FreedBy(events[1..]) }

  lemma {:induction false} EventStep(before: seq<File>, events: seq<Event>, i: nat, now: int, target: int, maxHits: int)
    requires i < |events| && target > 0 && maxHits > 0
    ensures before + OfferedBy(events[i..], now, target, maxHits)
         == before + OfferOf(events[i], now, target, maxHits) + OfferedBy(events[i + 1..], now, target, maxHits)
    ensures FreedBy(events[i..]) == FreedOf(events[i]) + FreedBy(events[i + 1..])
  {
    assert events[i..][1..] == events[i + 1..];
  }

  /** What is offered stays among the files ranked. */
  lemma {:induction false} RankedHolds(offered: seq<File>, f: File)
    requires f in offered
    ensures f in Ranked(offered)
  {
    RankedIsStable(offered, f.score);
    OfScoreHolds(offered, f);
    OfScoreFrom(Ranked(offered), f.score, f);
  }

  lemma {:induction false} OfScoreHolds(q: seq<File>, f: File)
    requires f in q
    ensures f in OfScore(q, f.score)
  {
    if q[0] != f { OfScoreHolds(q[1..], f); }
  }

  lemma {:induction false} OfScoreFrom(q: seq<File>, score: real, f: File)
    requires f in OfScore(q, score)
    ensures f in q
  {
    if !(q[0].score == score && q[0] == f) { OfScoreFrom(q[1..], score, f); }
  }

  /** Whenever a file is selected, so is every file offered with a higher score. */
  lemma {:induction false} HigherIsSelected(offered: seq<File>, want: int, f: File, g: File)
    requires f in Shortest(Ranked(offered), want) && g in offered && g.score > f.score
    ensures g in Shortest(Ranked(offered), want)
  {
    RankedDescends(offered);
    RankedHolds(offered, g);
    ShortestIsShortest(Ranked(offered), want);
    HigherInPrefix(Shortest(Ranked(offered), want), Ranked(offered), f, g);
  }

  lemma HigherInPrefix(sel: seq<File>, all: seq<File>, f: File, g: File)
    requires sel <= all && Descending(all) && f in sel && g in all && g.score > f.score
    ensures g in sel
  {
    var i :| 0 <= i < |sel| && sel[i] == f;
    var j :| 0 <= j < |all| && all[j] == g;
    assert all[i] == f;
    assert sel[j] == g;
  }

  /**
   * Of two files offered that were last used at the same time before now: if the smaller, or the more used, is collected,
   * then so is the other.
   */
  lemma LargerIsCollected(events: seq<Event>, i: nat, j: nat, now: int, target: int, maxHits: int, want: int)
    requires target > 0 && maxHits > 0 && i < |events| && j < |events| && events[i].Offer? && events[j].Offer?
    requires events[i].lastAccess == events[j].lastAccess < now
    requires events[i].size <= events[j].size && events[j].hits <= events[i].hits
    requires || (events[i].size < events[j].size && events[i].size < target)
             || (events[j].hits < events[i].hits && 0 < events[i].hits && events[j].hits < maxHits)
    ensures var all, e, e' := OfferedBy(events, now, target, maxHits), events[i], events[j];
            var f, f' := OfferOf(e, now, target, maxHits)[0], OfferOf(e', now, target, maxHits)[0];
            f in Shortest(Ranked(all), want) ==> f' in Shortest(Ranked(all), want)
  {
    var all, e, e' := OfferedBy(events, now, target, maxHits), events[i], events[j];
    var f, f' := OfferOf(e, now, target, maxHits)[0], OfferOf(e', now, target, maxHits)[0];
    var age := now - e.lastAccess;
    if e.size < e'.size && e.size < target {
      LargerScoresHigher(age, e.size, e.hits, e'.size, e'.hits, target, maxHits);
    } else {
      LessUsedScoresHigher(age, e.size, e.hits, e'.size, e'.hits, target, maxHits);
    }
    OfferedHolds(events, j, now, target, maxHits);
    if f in Shortest(Ranked(all), want) { HigherIsSelected(all, want, f, f'); }
  }

  lemma {:induction false} OfferedHolds(events: seq<Event>, i: nat, now: int, target: int, maxHits: int)
    requires target > 0 && maxHits > 0 && i < |events| && events[i].Offer?
    ensures OfferOf(events[i], now, target, maxHits)[0] in OfferedBy(events, now, target, maxHits)
  {
    if i > 0 { OfferedHolds(events[1..], i - 1, now, target, maxHits); }
  }

  datatype Collected = Files(names: seq<string>) | BadArguments

  /**
   * After every sequence of offers and freed bytes the names collected are those of the shortest prefix of all the
   * files offered, in stable descending order of score, that frees what remains to be freed; or of all of them.
   */
  method Collect(saveBytes: int, now: int, maxHits: int, events: seq<Event>) returns (r: Collected)
    ensures r == BadArguments <==> saveBytes <= 0 || now < 0 || maxHits <= 0
    ensures r.Files? ==>
              r.names == Names(Shortest(Ranked(OfferedBy(events, now, saveBytes, maxHits)), saveBytes - FreedBy(events)))
  {
    if saveBytes <= 0 || now < 0 || maxHits <= 0 {
      return BadArguments;
    }
    var f := new Scorer(saveBytes, now, maxHits);
    Feed(f, events);
    NothingLeft(Ranked(f.offered), saveBytes - FreedBy(events));
    var names := f.FileNames();
    return Files(names);
  }

  /** What was offered so far, and what is left to be freed, with the events from i on make up `all` and `left`. */
  ghost predicate Feeding(f: Scorer, events: seq<Event>, i: nat, all: seq<File>, left: int)
    requires f.target > 0 && f.maxHits > 0
    reads f
  {
    && i <= |events| && f.offered + OfferedBy(events[i..], f.now, f.target, f.maxHits) == all
    && Max(0, f.saveBytes - FreedBy(events[i..])) == left
  }

  method FeedNext(f: Scorer, events: seq<Event>, i: nat, ghost all: seq<File>, ghost left: int)
    requires f.Valid() && i < |events| && Feeding(f, events, i, all, left)
    modifies f
    ensures f.Valid() && Feeding(f, events, i + 1, all, left)
  {
    EventStep(f.offered, events, i, f.now, f.target, f.maxHits);
    f.Take(events[i]);
  }

  /** The events reach a new scorer one after the other. */
  method Feed(f: Scorer, events: seq<Event>)
    requires f.Valid() && f.offered == []
    modifies f
    ensures f.Valid() && f.offered == OfferedBy(events, f.now, f.target, f.maxHits)
    ensures f.saveBytes == Max(0, old(f.saveBytes) - FreedBy(events))
  {
    var i := 0;
    ghost var all, left := OfferedBy(events, f.now, f.target, f.maxHits), Max(0, f.saveBytes - FreedBy(events));
    assert events[0..] == events && [] + all == all;
    while i < |events|
      invariant f.Valid() && Feeding(f, events, i, all, left)
    {
      FeedNext(f, events, i, all, left);
      i := i + 1;
    }
    assert events[|events|..] == [];
  }

  lemma NothingLeft(q: seq<File>, want: int)
    ensures Shortest(q, want) == Shortest(q, Max(0, want))
  {
  }

  // ---- what raising the target does not do ----

  lemma TwoFiles(a: File, b: File)
    requires a.size == b.size == 1 && a.score == b.score
    ensures Ranked([a, b]) == [a, b] && Shortest([a, b], 1) == [a] && Shortest([a, b], 2) == [a, b] && Total([a]) == 1
  {
    assert [a, b][..1] == [a] && [a][..0] == [] && [a, b][1..] == [b] && [b][1..] == [] && [a][1..] == [];
    assert Ranked([a]) == Insert(Ranked([]), a) && Insert([a], b) == [a] + Insert([], b);
    assert Shortest([b], 1) == [b] + Shortest([], 0);
    assert Total([a]) == a.size + Total([]);
  }

  /** Two files of one byte, and a target raised from one to two: the file dropped at first is missing. */
  method RaiseMissesFile(a: File, b: File) returns (selected: seq<File>, ghost wanted: seq<File>)
    requires a.size == b.size == 1 && a.score == b.score
    ensures selected == [a] && wanted == [a, b]
  {
    var f := new Scorer(1, 0, 1);
    f.Enqueue(a);
    f.Enqueue(b);
    TwoFiles(a, b);
    assert f.offered == [a, b];
    var _ := f.AdjustSaveBytes(1);
    selected, wanted := f.queue, Shortest(Ranked(f.offered), f.saveBytes);
  }

  /** A target lowered to nothing and raised again by no more than what had been queued: no file is selected any more. */
  method ClearedSelectsNothing(f: Scorer, n: nat, files: seq<File>) returns (selected: seq<File>)
    requires f.Valid() && 0 < f.saveBytes && 0 < n <= f.queuedBytes
    modifies f
    ensures selected == [] && f.saveBytes == n && f.offered == old(f.offered) + files
  {
    var _ := f.AdjustSaveBytes(-f.saveBytes);
    var _ := f.AdjustSaveBytes(n);
    var i := 0;
    while i < |files|
      invariant i <= |files| && f.Drained() && f.saveBytes == n && f.offered == old(f.offered) + files[..i]
    {
      f.Enqueue(files[i]);
      TakeSnoc(files, i);
      i := i + 1;
    }
    assert files[..i] == files;
    selected := f.queue;
  }
}
