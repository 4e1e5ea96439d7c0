/** Bytes, ceiling division and the list operations shared by every module. */
module Bytes {

  newtype byte = b: int | 0 <= b < 256

  datatype Option<+T> = None | Some(value: T)

  function Min(a: int, b: int): int { if a <= b then a else b }

  function Max(a: int, b: int): int { if a >= b then a else b }

  /** Go's integer division, which truncates toward zero. */
  function TruncDiv(a: int, b: int): int
    requires b > 0
  {
    if a >= 0 then a / b else -((-a) / b)
  }

  /** `ceilFrac`, sign handling and the zero denominator included. */
  function CeilFrac(numerator: int, denominator: int): int {
    if denominator == 0 then 0 else
    var n := if denominator < 0 then -numerator else numerator;
    var d := if denominator < 0 then -denominator else denominator;
    TruncDiv(n, d) + if n > 0 && n % d != 0 then 1 else 0
  }

  lemma DivMod(n: int, d: int)
    requires d > 0
    ensures n == (n / d) * d + n % d && 0 <= n % d < d
  {
  }

  /** Rounding q * d + r up, and -(q * d + r). */
  lemma RoundUp(q: int, r: int, d: int)
    requires 0 <= r < d
    ensures var f := if r > 0 then q + 1 else q; (f - 1) * d < q * d + r <= f * d
    ensures (-q - 1) * d < -(q * d + r) <= (-q) * d
  {
    assert (q + 1) * d == q * d + d && (q - 1) * d == q * d - d;
    assert (-q) * d == -(q * d) && (-q - 1) * d == -(q * d) - d;
  }

  lemma CeilFracBounds(n: int, d: int)
    requires d > 0
    ensures (CeilFrac(n, d) - 1) * d < n <= CeilFrac(n, d) * d
  {
    if n >= 0 {
      var q, r := n / d, n % d;
      assert CeilFrac(n, d) == if r > 0 then q + 1 else q;
      DivMod(n, d);
      RoundUp(q, r, d);
    } else {
      var q, r := (-n) / d, (-n) % d;
      assert CeilFrac(n, d) == -q;
      DivMod(-n, d);
      RoundUp(q, r, d);
    }
  }

  lemma CeilUnique(n: int, d: int, a: int, b: int)
    requires d > 0 && (a - 1) * d < n <= a * d && (b - 1) * d < n <= b * d
    ensures a <= b
  {
    if b < a {
      MulMono(b, a - 1, d);
    }
  }

  /** `ceilFrac` is the least integer c with c * denominator >= numerator. */
  lemma CeilFracIsCeiling(n: int, d: int, c: int)
    requires d > 0
    ensures c == CeilFrac(n, d) <==> (c - 1) * d < n <= c * d
  {
    var f := CeilFrac(n, d);
    CeilFracBounds(n, d);
    if (c - 1) * d < n <= c * d {
      CeilUnique(n, d, c, f);
      CeilUnique(n, d, f, c);
    }
  }

  lemma CeilFracSigns(numerator: int, denominator: int)
    ensures CeilFrac(-numerator, -denominator) == CeilFrac(numerator, denominator) && CeilFrac(numerator, 0) == 0
  {
  }

  lemma CeilFracOf(n: nat, d: int, rest: int)
    requires 0 < rest <= d
    ensures CeilFrac(n * d + rest, d) == n + 1
  {
    assert (n + 1) * d == n * d + d;
    CeilFracIsCeiling(n * d + rest, d, n + 1);
  }

  lemma CeilFracMono(m: int, n: int, d: int)
    requires d > 0 && m <= n
    ensures CeilFrac(m, d) <= CeilFrac(n, d)
  {
    CeilFracIsCeiling(m, d, CeilFrac(m, d));
    CeilFracIsCeiling(n, d, CeilFrac(n, d));
    if CeilFrac(n, d) < CeilFrac(m, d) {
      MulMono(CeilFrac(n, d), CeilFrac(m, d) - 1, d);
    }
  }

  lemma CeilFracPositive(n: int, d: int)
    requires d > 0
    ensures n > 0 <==> CeilFrac(n, d) > 0
    ensures n >= 0 ==> CeilFrac(n, d) >= 0
  {
    CeilFracIsCeiling(n, d, CeilFrac(n, d));
    CeilFracIsCeiling(0, d, 0);
    if n <= 0 { CeilFracMono(n, 0, d); }
    if n >= 0 { CeilFracMono(0, n, d); }
  }

  lemma MulMono(a: int, b: int, d: int)
    requires a <= b && d >= 0
    ensures a * d <= b * d
  {
    assert (b - a) * d >= 0;
  }

  lemma MulGrows(k: nat, d: int)
    requires d > 0
    ensures k <= k * d
  {
    assert k * (d - 1) >= 0;
  }

  lemma MulDivMod(k: nat, d: int)
    requires d > 0
    ensures (k * d) / d == k && (k * d) % d == 0
  {
    DivUnique(k * d, d, k);
  }

  /** The quotient is the only k with k * d <= n < (k + 1) * d. */
  lemma DivUnique(n: int, d: int, k: int)
    requires d > 0 && k * d <= n < k * d + d
    ensures n / d == k && n % d == n - k * d
  {
    var q := n / d;
    assert n == q * d + n % d;
    if q < k { MulMono(q + 1, k, d); }
    if k < q { MulMono(k + 1, q, d); }
  }

  lemma DivLower(n: int, d: int, k: int)
    requires d > 0 && k * d <= n
    ensures k <= n / d
  {
    if n / d < k { MulMono(n / d + 1, k, d); }
  }

  /** s[from..from + n], cut short at the end of s: what a limited reader positioned at `from` yields. */
  function Window<T>(s: seq<T>, from: nat, n: int): seq<T> {
    if from >= |s| || n <= 0 then [] else s[from..Min(from + n, |s|)]
  }

  lemma WindowBehind<T>(b: seq<T>, rest: seq<T>, from: nat, n: int)
    requires from >= |b|
    ensures Window(b + rest, from, n) == Window(rest, from - |b|, n)
  {
    if from < |b + rest| && n > 0 {
      var end := Min(from + n, |b + rest|);
      assert (b + rest)[from..end] == rest[from - |b|..end - |b|];
    }
  }

  lemma WindowInPrefix<T>(p: seq<T>, s: seq<T>, from: nat, n: nat)
    requires p <= s && from + n <= |p|
    ensures Window(s, from, n) == p[from..from + n]
  {
    if n > 0 {
      assert s[from..from + n] == p[from..from + n];
    }
  }

  lemma MulSucc(k: nat, d: int)
    ensures (k + 1) * d == k * d + d
  {
  }

  lemma SliceOfSlice<T>(s: seq<T>, at: nat, end: nat, a: nat, b: nat)
    requires at <= end <= |s| && a <= b <= end - at
    ensures s[at..end][a..b] == s[at + a..at + b]
  {
    var l, r := s[at..end][a..b], s[at + a..at + b];
    assert |l| == |r|;
    forall i | 0 <= i < |l| ensures l[i] == r[i] {
      assert l[i] == s[at..end][a + i];
    }
  }

  /** How often x occurs in s. */
  function Count<T(==)>(s: seq<T>, x: T): (n: nat)
    ensures n <= |s|
  {
    if s == [] then 0 else (if s[0] == x then 1 else 0) + Count(s[1..], x)
  }

  lemma {:induction false} CountSnoc<T>(s: seq<T>, y: T, x: T)
    ensures Count(s + [y], x) == Count(s, x) + (if y == x then 1 else 0)
  {
    if s == [] {
      assert (s + [y])[1..] == [];
    } else {
      assert (s + [y])[1..] == s[1..] + [y];
      CountSnoc(s[1..], y, x);
    }
  }

  function Sum(ns: seq<nat>): nat { if ns == [] then 0 else ns[0] + Sum(ns[1..]) }

  function Flatten<T>(ss: seq<seq<T>>): seq<T> {
    if ss == [] then [] else ss[0] + Flatten(ss[1..])
  }

  lemma {:induction false} FlattenConcat<T>(a: seq<seq<T>>, b: seq<seq<T>>)
    ensures Flatten(a + b) == Flatten(a) + Flatten(b)
  {
    if a == [] {
      assert a + b == b;
    } else {
      assert (a + b)[1..] == a[1..] + b;
      FlattenConcat(a[1..], b);
    }
  }

  lemma FlattenSnoc<T>(a: seq<seq<T>>, x: seq<T>)
    ensures Flatten(a + [x]) == Flatten(a) + x
  {
    FlattenConcat(a, [x]);
    assert Flatten([x]) == x + Flatten([]);
  }

  lemma FlattenIsPrefix<T>(a: seq<seq<T>>, b: seq<seq<T>>)
    requires a <= b
    ensures Flatten(a) <= Flatten(b)
  {
    var rest := b[|a|..];
    assert b == a + rest;
    FlattenConcat(a, rest);
  }

  lemma TakeSnoc<T>(s: seq<T>, i: nat)
    requires i < |s|
    ensures s[..i + 1] == s[..i] + [s[i]] && s[..i + 1] <= s
  {
  }

  lemma FlattenPrefix<T>(ss: seq<seq<T>>, i: nat)
    requires i < |ss|
    ensures Flatten(ss[..i + 1]) == Flatten(ss[..i]) + ss[i] && Flatten(ss[..i + 1]) <= Flatten(ss)
  {
    TakeSnoc(ss, i);
    FlattenSnoc(ss[..i], ss[i]);
    FlattenIsPrefix(ss[..i + 1], ss);
  }
}
