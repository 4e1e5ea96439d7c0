/** How the endpoints of a server are cut into erasure sets of equal size. */
module SetSizing {
  import opened Bytes

  const SET_SIZES: seq<nat> := [4, 6, 8, 10, 12, 14, 16]

  /** The sizes a set may have: the even numbers from 4 to 16. */
  predicate Supported(n: nat) { 4 <= n <= 16 && n % 2 == 0 }

  lemma ListsSupported(n: nat)
    ensures n in SET_SIZES <==> Supported(n)
  {
    assert n in SET_SIZES <==> n == 4 || n == 6 || n == 8 || n == 10 || n == 12 || n == 14 || n == 16;
  }

  predicate Divides(d: nat, n: nat) { d > 0 && n % d == 0 }

  ghost predicate DividesAll(d: nat, ns: seq<nat>) { forall i :: 0 <= i < |ns| ==> Divides(d, ns[i]) }

  // ---- the greatest common divisor ----

  lemma DividesMod(x: nat, y: nat, d: nat)
    requires y > 0 && Divides(d, y)
    ensures Divides(d, x) <==> Divides(d, x % y)
  {
    var m, r := (x / y) * (y / d), x % y;
    assert y == (y / d) * d && x == (x / y) * y + r;
    assert (x / y) * ((y / d) * d) == m * d;
    assert r == (r / d) * d + r % d;
    assert (m + r / d) * d == m * d + (r / d) * d;
    DivUnique(x, d, m + r / d);
  }

  /** The common divisors of x and y are the divisors of the result. */
  method Gcd(x: nat, y: nat) returns (g: nat)
    requires x > 0
    ensures g > 0 && forall d :: Divides(d, g) <==> Divides(d, x) && Divides(d, y)
  {
    var a, b := x, y;
    while b != 0
      invariant a > 0 && forall d :: Divides(d, a) && Divides(d, b) <==> Divides(d, x) && Divides(d, y)
      decreases b
    {
      forall d ensures Divides(d, a) && Divides(d, b) <==> Divides(d, b) && Divides(d, a % b) {
        if Divides(d, b) { DividesMod(a, b, d); }
      }
      a, b := b, a % b;
    }
    return a;
  }

  /** `getDivisibleSize`: a number divides the result exactly if it divides every total. */
  method GetDivisibleSize(totalSizes: seq<nat>) returns (result: nat)
    requires totalSizes != [] && totalSizes[0] > 0
    ensures result > 0 && forall d :: Divides(d, result) <==> DividesAll(d, totalSizes)
  {
    result := totalSizes[0];
    var i := 1;
    while i < |totalSizes|
      invariant 1 <= i <= |totalSizes| && result > 0
      invariant forall d :: Divides(d, result) <==> DividesAll(d, totalSizes[..i])
    {
      var g := Gcd(result, totalSizes[i]);
      assert totalSizes[..i + 1] == totalSizes[..i] + [totalSizes[i]];
      result := g;
      i := i + 1;
    }
    assert totalSizes[..i] == totalSizes;
  }

  // ---- the set size ----

  /** The largest supported size that divides n, or 0. */
  ghost predicate IsLargest(size: nat, n: nat) {
    && (size == 0 || (Supported(size) && Divides(size, n)))
    && forall s: nat :: Supported(s) && Divides(s, n) ==> s <= size
  }

  /** The loop over the supported sizes, which prefers the smaller quotient. */
  method LargestSize(commonSize: nat) returns (setSize: nat)
    ensures IsLargest(setSize, commonSize)
  {
    setSize := 0;
    var prevD := commonSize / SET_SIZES[0];
    var k := 0;
    while k < |SET_SIZES|
      invariant k <= |SET_SIZES|
      invariant setSize == 0 ==> prevD == commonSize / SET_SIZES[0]
      invariant setSize != 0 ==> setSize in SET_SIZES[..k] && Divides(setSize, commonSize) && prevD == commonSize / setSize
      invariant forall j :: 0 <= j < k && Divides(SET_SIZES[j], commonSize) ==> SET_SIZES[j] <= setSize
    {
      var i := SET_SIZES[k];
      if commonSize % i == 0 {
        var d := commonSize / i;
        SmallerQuotient(commonSize, if setSize == 0 then SET_SIZES[0] else setSize, i);
        if d <= prevD {
          prevD := d;
          setSize := i;
        }
      }
      k := k + 1;
    }
    forall s: nat { ListsSupported(s); }
  }

  lemma SmallerQuotient(n: nat, a: nat, b: nat)
    requires 0 < a <= b
    ensures n / b <= n / a
  {
    if n / a < n / b {
      MulMono(n / a + 1, n / b, a);
      MulMono(a, b, n / b);
    }
  }

  /** `possibleSetCounts` */
  method PossibleSetCounts(n: nat) returns (ss: seq<nat>)
    ensures forall s :: s in ss <==> Supported(s) && Divides(s, n)
  {
    ss := [];
    var k := 0;
    while k < |SET_SIZES|
      invariant k <= |SET_SIZES|
      invariant forall s :: s in ss <==> s in SET_SIZES[..k] && Divides(s, n)
    {
      assert SET_SIZES[..k + 1] == SET_SIZES[..k] + [SET_SIZES[k]];
      if n % SET_SIZES[k] == 0 {
        ss := ss + [SET_SIZES[k]];
      }
      k := k + 1;
    }
    assert SET_SIZES[..k] == SET_SIZES;
    forall s: nat { ListsSupported(s); }
  }

  predicate IsValidSetSize(count: nat) {
    SET_SIZES[0] <= count <= SET_SIZES[|SET_SIZES| - 1] && count % 2 == 0
  }

  lemma ValidIsSupported(n: nat)
    ensures IsValidSetSize(n) <==> Supported(n)
  {
    assert SET_SIZES[0] == 4 && SET_SIZES[|SET_SIZES| - 1] == 16;
  }

  /** Up to 16, a number that has a supported divisor is supported itself. */
  lemma SmallIsLargest(n: nat, s: nat)
    requires 0 < n <= 16 && Supported(s) && Divides(s, n)
    ensures Supported(n) && IsLargest(n, n)
  {
    assert s == 4 || s == 6 || s == 8 || s == 10 || s == 12 || s == 14 || s == 16;
    assert n == (n / s) * s;
    assert n % 2 == 0 && s <= n by {
      assert n / s == 1 || n / s == 2 || n / s == 3 || n / s == 4;
    }
    ValidIsSupported(n);
    forall t: nat | Supported(t) && Divides(t, n) ensures t <= n {
      if t > n { DivUnique(n, t, 0); }
    }
  }

  datatype Error = InvalidArgument | InvalidNumberOfEndpoints | InvalidSetSize | DuplicateEndpoints

  datatype Result<T> = Ok(value: T) | Err(error: Error)

  /** n copies of size. */
  function Repeat(size: nat, n: nat): (r: seq<nat>)
    ensures |r| == n && forall i :: 0 <= i < n ==> r[i] == size
  {
    seq(n, i => size)
  }

  /** Every argument is cut into sets of this size, which use up its total. */
  ghost predicate CutInto(setIndexes: seq<seq<nat>>, totalSizes: seq<nat>, size: nat) {
    && size > 0 && |setIndexes| == |totalSizes|
    && forall i :: 0 <= i < |totalSizes| ==>
         setIndexes[i] == Repeat(size, totalSizes[i] / size) && Sum(setIndexes[i]) == totalSizes[i]
  }

  lemma {:induction false} SumOfRepeat(size: nat, n: nat)
    ensures Sum(Repeat(size, n)) == n * size
  {
    if n > 0 {
      assert Repeat(size, n)[1..] == Repeat(size, n - 1);
      SumOfRepeat(size, n - 1);
    }
  }

  /** The size asked for is supported and divides every total. */
  ghost predicate Fits(size: nat, totalSizes: seq<nat>) { Supported(size) && DividesAll(size, totalSizes) }

  lemma FitsIsLarge(size: nat, totalSizes: seq<nat>, i: nat)
    requires Fits(size, totalSizes) && i < |totalSizes| && totalSizes[i] > 0
    ensures totalSizes[i] >= size >= SET_SIZES[0]
  {
    assert Divides(size, totalSizes[i]);
    if totalSizes[i] < size { DivUnique(totalSizes[i], size, 0); }
    ValidIsSupported(size);
  }

  /** The check that every argument has enough endpoints. */
  method LargeEnough(totalSizes: seq<nat>, customSetDriveCount: nat) returns (ok: bool)
    ensures ok <==> forall i :: 0 <= i < |totalSizes| ==> totalSizes[i] >= SET_SIZES[0] && totalSizes[i] >= customSetDriveCount
  {
    var i := 0;
    while i < |totalSizes|
      invariant i <= |totalSizes|
      invariant forall j :: 0 <= j < i ==> totalSizes[j] >= SET_SIZES[0] && totalSizes[j] >= customSetDriveCount
    {
      if totalSizes[i] < SET_SIZES[0] || totalSizes[i] < customSetDriveCount {
        return false;
      }
      i := i + 1;
    }
    return true;
  }

  /** Sets of one size for every argument. */
  method FillIndexes(totalSizes: seq<nat>, setSize: nat) returns (setIndexes: seq<seq<nat>>)
    requires DividesAll(setSize, totalSizes) && setSize > 0
    ensures CutInto(setIndexes, totalSizes, setSize)
  {
    setIndexes := [];
    var i := 0;
    while i < |totalSizes|
      invariant i <= |totalSizes| && CutInto(setIndexes, totalSizes[..i], setSize)
    {
      var indexes: seq<nat> := [];
      var j := 0;
      while j < totalSizes[i] / setSize
        invariant j <= totalSizes[i] / setSize && indexes == Repeat(setSize, j)
      {
        indexes := indexes + [setSize];
        j := j + 1;
      }
      assert Divides(setSize, totalSizes[i]);
      SumOfRepeat(setSize, j);
      setIndexes := setIndexes + [indexes];
      i := i + 1;
    }
    assert totalSizes[..i] == totalSizes;
  }

  /** A usable layout exists: with a custom count this is the size, else any supported size that fits. */
  ghost predicate Feasible(totalSizes: seq<nat>, customSetDriveCount: nat) {
    && (forall i :: 0 <= i < |totalSizes| ==> totalSizes[i] > 0)
    && if customSetDriveCount > 0 then Fits(customSetDriveCount, totalSizes) else exists s: nat :: Fits(s, totalSizes)
  }

  /** The size chosen: the custom count, else the largest supported size that fits. */
  ghost predicate Chosen(size: nat, totalSizes: seq<nat>, customSetDriveCount: nat) {
    && Fits(size, totalSizes)
    && if customSetDriveCount > 0 then size == customSetDriveCount else forall s: nat :: Fits(s, totalSizes) ==> s <= size
  }

  /** `getSetIndexes`: it succeeds exactly if a usable layout exists, and cuts all totals into sets of the chosen size. */
  method GetSetIndexes(args: seq<string>, totalSizes: seq<nat>, customSetDriveCount: nat)
    returns (r: Result<seq<seq<nat>>>, ghost size: nat)
    ensures r == Err(InvalidArgument) <==> totalSizes == [] || args == []
    ensures r != Err(DuplicateEndpoints)
    ensures r == Err(InvalidSetSize) <==>
              && args != [] && totalSizes != [] && (forall i :: 0 <= i < |totalSizes| ==> totalSizes[i] >= customSetDriveCount)
              && Feasible(totalSizes, 0) && customSetDriveCount > 0 && !Fits(customSetDriveCount, totalSizes)
    ensures r.Ok? <==> totalSizes != [] && args != [] && Feasible(totalSizes, customSetDriveCount)
    ensures r.Ok? ==> Chosen(size, totalSizes, customSetDriveCount) && CutInto(r.value, totalSizes, size)
  {
    size := 0;
    if totalSizes == [] || args == [] {
      return Err(InvalidArgument), 0;
    }
    var ok := LargeEnough(totalSizes, customSetDriveCount);
    if !ok {
      NotFeasible(totalSizes, customSetDriveCount);
      return Err(InvalidNumberOfEndpoints), 0;
    }
    var commonSize := GetDivisibleSize(totalSizes);
    var setSize;
    if commonSize > SET_SIZES[|SET_SIZES| - 1] {
      setSize := LargestSize(commonSize);
    } else {
      setSize := commonSize;
    }
    var setCounts := PossibleSetCounts(commonSize);
    assert forall s: nat :: s in setCounts <==> Fits(s, totalSizes);
    if setCounts == [] {
      return Err(InvalidNumberOfEndpoints), 0;
    }
    assert IsLargest(setSize, commonSize) && Supported(setSize) by {
      var s := setCounts[0];
      assert s in setCounts;
      if commonSize <= 16 { SmallIsLargest(commonSize, s); }
    }
    if customSetDriveCount > 0 {
      if customSetDriveCount > setSize {
        return Err(InvalidSetSize), 0;
      }
      if customSetDriveCount !in setCounts {
        return Err(InvalidSetSize), 0;
      }
      setSize := customSetDriveCount;
    }
    ValidIsSupported(setSize);
    if !IsValidSetSize(setSize) {
      r := Err(InvalidNumberOfEndpoints);
      return;
    }
    var setIndexes := FillIndexes(totalSizes, setSize);
    return Ok(setIndexes), setSize;
  }

  lemma NotFeasible(totalSizes: seq<nat>, custom: nat)
    requires exists i :: 0 <= i < |totalSizes| && !(totalSizes[i] >= SET_SIZES[0] && totalSizes[i] >= custom)
    ensures !Feasible(totalSizes, custom)
  {
    var i :| 0 <= i < |totalSizes| && !(totalSizes[i] >= SET_SIZES[0] && totalSizes[i] >= custom);
    if Feasible(totalSizes, custom) {
      var s: nat :| Fits(s, totalSizes) && (custom > 0 ==> s == custom);
      FitsIsLarge(s, totalSizes, i);
    }
  }

  // ---- cutting the endpoints ----

  /** `endpointSet.Get`: consecutive pieces of the endpoints, of the sizes given. */
  method Get(endpoints: seq<string>, setIndexes: seq<seq<nat>>) returns (sets: seq<seq<string>>)
    requires Sum(Flatten(setIndexes)) <= |endpoints|
    ensures Flatten(sets) == endpoints[..Sum(Flatten(setIndexes))]
    ensures |sets| == |Flatten(setIndexes)| && forall i :: 0 <= i < |sets| ==> |sets[i]| == Flatten(setIndexes)[i]
  {
    ghost var all := Flatten(setIndexes);
    sets := [];
    var k: nat, i := 0, 0;
    while i < |setIndexes|
      invariant i <= |setIndexes| && Partitioned(endpoints, all, Flatten(setIndexes[..i]), sets, k)
    {
      FlattenPrefix(setIndexes, i);
      sets, k := CutSets(endpoints, setIndexes[i], sets, k, all, Flatten(setIndexes[..i]));
      i := i + 1;
    }
    assert setIndexes[..i] == setIndexes;
  }

  /** The sets of one argument. */
  method CutSets(endpoints: seq<string>, indexes: seq<nat>, before: seq<seq<string>>, from: nat, ghost all: seq<nat>, ghost done: seq<nat>)
    returns (sets: seq<seq<string>>, k: nat)
    requires Partitioned(endpoints, all, done, before, from) && done + indexes <= all
    ensures Partitioned(endpoints, all, done + indexes, sets, k)
  {
    sets, k := before, from;
    var j := 0;
    assert done + indexes[..0] == done;
    while j < |indexes|
      invariant j <= |indexes| && Partitioned(endpoints, all, done + indexes[..j], sets, k)
    {
      assert done + indexes[..j + 1] == done + indexes[..j] + [indexes[j]];
      assert done + indexes == done + indexes[..j + 1] + indexes[j + 1..];
      NextPiece(endpoints, all, done + indexes[..j], indexes[j], sets, k);
      sets := sets + [endpoints[k..indexes[j] + k]];
      k := indexes[j] + k;
      j := j + 1;
    }
    assert indexes[..j] == indexes;
  }

  /** Pieces of the sizes `done`, a prefix of all sizes, have been cut off the first k endpoints. */
  ghost predicate Partitioned(endpoints: seq<string>, all: seq<nat>, done: seq<nat>, sets: seq<seq<string>>, k: nat) {
    && done <= all && k == Sum(done) && Sum(all) <= |endpoints| && k <= |endpoints|
    && Flatten(sets) == endpoints[..k]
    && |sets| == |done| && forall i :: 0 <= i < |sets| ==> |sets[i]| == done[i]
  }

  lemma {:induction false} SumConcat(a: seq<nat>, b: seq<nat>)
    ensures Sum(a + b) == Sum(a) + Sum(b)
  {
    if a == [] {
      assert a + b == b;
    } else {
      assert (a + b)[1..] == a[1..] + b;
      SumConcat(a[1..], b);
    }
  }

  lemma NextPiece(endpoints: seq<string>, all: seq<nat>, done: seq<nat>, n: nat, sets: seq<seq<string>>, k: nat)
    requires Partitioned(endpoints, all, done, sets, k) && done + [n] <= all
    ensures k + n <= |endpoints| && Partitioned(endpoints, all, done + [n], sets + [endpoints[k..k + n]], k + n)
  {
    var rest := all[|done| + 1..];
    assert all == done + [n] + rest;
    SumConcat(done + [n], rest);
    SumConcat(done, [n]);
    assert Sum([n]) == n + Sum([]);
    FlattenSnoc(sets, endpoints[k..k + n]);
    assert endpoints[..k] + endpoints[k..k + n] == endpoints[..k + n];
  }

  ghost predicate Distinct(ss: seq<string>) { forall i, j :: 0 <= i < j < |ss| ==> ss[i] != ss[j] }

  function SetOf(ss: seq<string>): set<string> { set s | s in ss }

  lemma DistinctSnoc(ss: seq<string>, s: string)
    ensures Distinct(ss + [s]) <==> Distinct(ss) && s !in ss
  {
    if Distinct(ss + [s]) {
      forall i, j | 0 <= i < j < |ss| ensures ss[i] != ss[j] {
        assert (ss + [s])[i] != (ss + [s])[j];
      }
      forall i | 0 <= i < |ss| ensures ss[i] != s {
        assert (ss + [s])[i] != (ss + [s])[|ss|];
      }
    }
  }

  /** One set of the duplicate check. */
  method AddUnique(sargs: seq<string>, uniqueArgs: set<string>, ghost before: seq<string>) returns (seen: set<string>, ok: bool)
    requires Distinct(before) && uniqueArgs == SetOf(before)
    ensures ok <==> Distinct(before + sargs)
    ensures ok ==> seen == SetOf(before + sargs)
  {
    seen := uniqueArgs;
    var j := 0;
    assert before + sargs[..0] == before;
    while j < |sargs|
      invariant j <= |sargs| && Distinct(before + sargs[..j]) && seen == SetOf(before + sargs[..j])
    {
      ghost var now := before + sargs[..j];
      assert before + sargs[..j + 1] == now + [sargs[j]];
      DistinctSnoc(now, sargs[j]);
      if sargs[j] in seen {
        assert now + [sargs[j]] <= before + sargs;
        return seen, false;
      }
      assert SetOf(now + [sargs[j]]) == SetOf(now) + {sargs[j]};
      seen := seen + {sargs[j]};
      j := j + 1;
    }
    assert sargs[..j] == sargs;
    ok := true;
  }

  /** The duplicate check of `GetAllSets`. */
  method AllUnique(sets: seq<seq<string>>) returns (ok: bool)
    ensures ok <==> Distinct(Flatten(sets))
  {
    var uniqueArgs: set<string>, i := {}, 0;
    assert SetOf([]) == {};
    while i < |sets|
      invariant i <= |sets| && Distinct(Flatten(sets[..i])) && uniqueArgs == SetOf(Flatten(sets[..i]))
    {
      FlattenPrefix(sets, i);
      uniqueArgs, ok := AddUnique(sets[i], uniqueArgs, Flatten(sets[..i]));
      if !ok {
        return;
      }
      i := i + 1;
    }
    assert sets[..i] == sets;
    ok := true;
  }

  lemma {:induction false} CutTotals(setIndexes: seq<seq<nat>>, totalSizes: seq<nat>, size: nat)
    requires CutInto(setIndexes, totalSizes, size)
    ensures Sum(Flatten(setIndexes)) == Sum(totalSizes)
    ensures forall i :: 0 <= i < |Flatten(setIndexes)| ==> Flatten(setIndexes)[i] == size
  {
    if setIndexes != [] {
      CutTotals(setIndexes[1..], totalSizes[1..], size);
      SumConcat(setIndexes[0], Flatten(setIndexes[1..]));
    }
  }

  ghost predicate AllOfSize(sets: seq<seq<string>>, size: nat) { forall i :: 0 <= i < |sets| ==> |sets[i]| == size }

  /**
   * `GetAllSets`, the expansion of ellipses being given with its number of endpoints per argument. It succeeds exactly
   * if the numbers of endpoints allow a layout and no endpoint occurs twice; then the sets, all of the chosen size,
   * are the endpoints cut in their order. A single plain argument is a set of its own.
   */
  method GetAllSets(hasEllipses: bool, args: seq<string>, totalSizes: seq<nat>, expanded: seq<string>, customSetDriveCount: nat)
    returns (r: Result<seq<seq<string>>>)
    requires hasEllipses ==> args != [] && |totalSizes| == |args| && |expanded| == Sum(totalSizes)
    ensures var endpoints, totals := if hasEllipses then expanded else args, if hasEllipses then totalSizes else [|args|];
            var single := !hasEllipses && |args| <= 1;
            && (r.Ok? <==> (single || Feasible(totals, customSetDriveCount)) && Distinct(endpoints))
            && (r == Err(DuplicateEndpoints) <==> (single || Feasible(totals, customSetDriveCount)) && !Distinct(endpoints))
            && (r == Err(InvalidSetSize) ==> customSetDriveCount > 0 && Feasible(totals, 0)) && r != Err(InvalidArgument)
            && (r.Ok? ==> Flatten(r.value) == endpoints)
            && (r.Ok? && single ==> r.value == [args])
            && (r.Ok? && !single ==> exists size: nat :: Chosen(size, totals, customSetDriveCount) && AllOfSize(r.value, size))
  {
    var endpoints, totals := if hasEllipses then expanded else args, if hasEllipses then totalSizes else [|args|];
    var setIndexes := [[|args|]];
    ghost var chosen: nat := 0;
    assert Sum([|args|]) == |args| + Sum([]);
    assert Flatten(setIndexes) == setIndexes[0] + Flatten(setIndexes[1..]);
    if hasEllipses || |args| > 1 {
      var indexes, size := GetSetIndexes(args, totals, customSetDriveCount);
      if indexes.Err? {
        r := Err(indexes.error);
        return;
      }
      setIndexes, chosen := indexes.value, size;
      CutTotals(setIndexes, totals, size);
    }
    var sets := Get(endpoints, setIndexes);
    assert endpoints[..|endpoints|] == endpoints;
    var ok := AllUnique(sets);
    if !ok {
      r := Err(DuplicateEndpoints);
      return;
    }
    if !hasEllipses && |args| <= 1 {
      assert Flatten(sets) == sets[0] + Flatten(sets[1..]);
    } else {
      assert Chosen(chosen, totals, customSetDriveCount) && AllOfSize(sets, chosen);
    }
    r := Ok(sets);
  }
}
