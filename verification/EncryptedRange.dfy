/**
 * Byte ranges of objects encrypted in the DARE 2.0 format: every part is a stream of packages of 64 KiB
 * payload and 32 bytes overhead, the last one possibly shorter.
 */
module EncryptedRange {
  import opened Bytes

  const PAYLOAD := 64 * 1024
  const OVERHEAD := 32
  const PACKAGE := PAYLOAD + OVERHEAD
  /** 256 TB: at most 2^32 packages. */
  const MAX_DECRYPTED := 0x1_0000_0000_0000
  const MAX_ENCRYPTED := MAX_DECRYPTED + (MAX_DECRYPTED / PAYLOAD) * OVERHEAD

  /** The bytes of a stream: every package has its overhead. */
  function EncSize(size: nat): nat {
    if size == 0 then 0 else if size <= PAYLOAD then size + OVERHEAD else PACKAGE + EncSize(size - PAYLOAD)
  }

  /** `sio.EncryptedSize`. */
  function EncryptedSize(size: nat): Option<nat> {
    if size > MAX_DECRYPTED then None
    else Some((size / PAYLOAD) * PACKAGE + if size % PAYLOAD > 0 then size % PAYLOAD + OVERHEAD else 0)
  }

  /** `sio.DecryptedSize`: a remainder that is all overhead is no valid size. */
  function DecryptedSize(size: nat): Option<nat> {
    if size > MAX_ENCRYPTED then None else
    var rest := size % PACKAGE;
    if 0 < rest <= OVERHEAD then None
    else Some((size / PACKAGE) * PAYLOAD + if rest > 0 then rest - OVERHEAD else 0)
  }

  lemma {:induction false} EncSizeOf(q: nat, r: nat)
    requires r < PAYLOAD
    ensures EncSize(q * PAYLOAD + r) == q * PACKAGE + if r > 0 then r + OVERHEAD else 0
  {
    if q > 0 {
      EncSizeOf(q - 1, r);
      assert q * PAYLOAD + r - PAYLOAD == (q - 1) * PAYLOAD + r;
    }
  }

  lemma {:induction false} EncSizeIs(n: nat)
    ensures EncSize(n) == (n / PAYLOAD) * PACKAGE + if n % PAYLOAD > 0 then n % PAYLOAD + OVERHEAD else 0
  {
    EncSizeOf(n / PAYLOAD, n % PAYLOAD);
  }

  lemma {:induction false} EncSizeSplits(n: nat)
    ensures EncSize(n) / PACKAGE == n / PAYLOAD
    ensures EncSize(n) % PACKAGE == if n % PAYLOAD > 0 then n % PAYLOAD + OVERHEAD else 0
  {
    EncSizeIs(n);
    DivUnique(EncSize(n), PACKAGE, n / PAYLOAD);
  }

  lemma {:induction false} DecSizeSplits(m: nat)
    requires m % PACKAGE == 0 || m % PACKAGE > OVERHEAD
    ensures var n := (m / PACKAGE) * PAYLOAD + if m % PACKAGE > 0 then m % PACKAGE - OVERHEAD else 0;
            n >= 0 && n / PAYLOAD == m / PACKAGE && EncSize(n) == m
  {
    var rest := if m % PACKAGE > 0 then m % PACKAGE - OVERHEAD else 0;
    var n := (m / PACKAGE) * PAYLOAD + rest;
    DivUnique(n, PAYLOAD, m / PACKAGE);
    EncSizeIs(n);
  }

  /** The limits correspond: 2^32 full packages. */
  lemma LimitsAgree(n: nat)
    ensures n <= MAX_DECRYPTED <==> EncSize(n) <= MAX_ENCRYPTED
  {
    EncSizeIs(n);
    assert MAX_DECRYPTED == 0x1_0000_0000 * PAYLOAD && MAX_ENCRYPTED == 0x1_0000_0000 * PACKAGE;
  }

  /** EncryptedSize and DecryptedSize are inverse to each other, sizes refused by one being outside the other. */
  lemma {:induction false} SizesInverse(n: nat, m: nat)
    ensures EncryptedSize(n) == Some(m) <==> DecryptedSize(m) == Some(n)
  {
    LimitsAgree(n);
    EncSizeIs(n);
    if EncryptedSize(n) == Some(m) {
      EncSizeSplits(n);
    }
    if DecryptedSize(m) == Some(n) {
      DecSizeSplits(m);
    }
  }

  // ---- the format ----

  /**
   * Sealing and opening one package under the key of a part, at a sequence number; nothing is assumed but that
   * a sealed package is 32 bytes longer and opens to its payload under the same key and number.
   */
  datatype Cipher = Cipher(seal: (nat, nat, seq<byte>) -> seq<byte>, open: (nat, nat, seq<byte>) -> Option<seq<byte>>) {
    ghost predicate Valid() {
      forall part, num, p :: 0 < |p| <= PAYLOAD ==>
        |seal(part, num, p)| == |p| + OVERHEAD && open(part, num, seal(part, num, p)) == Some(p)
    }
  }

  /** The packages of a part from sequence number `num` on. */
  function SealPart(c: Cipher, part: nat, num: nat, plain: seq<byte>): seq<byte>
    decreases |plain|
  {
    if plain == [] then []
    else if |plain| <= PAYLOAD then c.seal(part, num, plain)
    else c.seal(part, num, plain[..PAYLOAD]) + SealPart(c, part, num + 1, plain[PAYLOAD..])
  }

  /** Opening a stream of packages, the first of which has sequence number `num`. */
  function OpenPart(c: Cipher, part: nat, num: nat, s: seq<byte>): Option<seq<byte>>
    decreases |s|
  {
    if s == [] then Some([])
    else if |s| <= PACKAGE then c.open(part, num, s)
    else
      var first, rest := c.open(part, num, s[..PACKAGE]), OpenPart(c, part, num + 1, s[PACKAGE..]);
      if first.None? || rest.None? then None else Some(first.value + rest.value)
  }

  datatype Part = Part(number: nat, plain: seq<byte>)

  function SealParts(c: Cipher, parts: seq<Part>): seq<byte> {
    if parts == [] then [] else SealPart(c, parts[0].number, 0, parts[0].plain) + SealParts(c, parts[1..])
  }

  function Plain(parts: seq<Part>): seq<byte> {
    if parts == [] then [] else parts[0].plain + Plain(parts[1..])
  }

  /** What the reader knows of a stored part: its number and its encrypted size. */
  datatype StoredPart = StoredPart(number: nat, size: nat)

  function Store(parts: seq<Part>): (ss: seq<StoredPart>)
    ensures |ss| == |parts|
  {
    seq(|parts|, i requires 0 <= i < |parts| => StoredPart(parts[i].number, EncSize(|parts[i].plain|)))
  }

  /**
   * The window decrypter: the first part's stream is limited to the part's size less the packages before
   * `num`, every later part starts at sequence number 0.
   */
  function OpenWindow(c: Cipher, parts: seq<StoredPart>, num: nat, window: seq<byte>): Option<seq<byte>> {
    if parts == [] then (if window == [] then Some([]) else None) else
    var encLenToRead := Max(0, parts[0].size - num * PACKAGE);
    var n := Min(encLenToRead, |window|);
    var first, rest := OpenPart(c, parts[0].number, num, window[..n]), OpenWindow(c, parts[1..], 0, window[n..]);
    if first.None? || rest.None? then None else Some(first.value + rest.value)
  }

  // ---- one part ----

  lemma {:induction false} SealPartLength(c: Cipher, part: nat, num: nat, plain: seq<byte>)
    requires c.Valid()
    ensures |SealPart(c, part, num, plain)| == EncSize(|plain|)
    decreases |plain|
  {
    if |plain| > PAYLOAD {
      SealPartLength(c, part, num + 1, plain[PAYLOAD..]);
    }
  }

  lemma {:induction false} OpenAll(c: Cipher, part: nat, num: nat, plain: seq<byte>)
    requires c.Valid()
    ensures OpenPart(c, part, num, SealPart(c, part, num, plain)) == Some(plain)
    decreases |plain|
  {
    SealPartLength(c, part, num, plain);
    if |plain| > PAYLOAD {
      var first, rest := plain[..PAYLOAD], plain[PAYLOAD..];
      SealPartLength(c, part, num + 1, rest);
      OpenAll(c, part, num + 1, rest);
      var s := SealPart(c, part, num, plain);
      assert s[..PACKAGE] == c.seal(part, num, first) && s[PACKAGE..] == SealPart(c, part, num + 1, rest);
      assert first + rest == plain;
    }
  }

  lemma FirstPackage(whole: seq<byte>, first: seq<byte>, tail: seq<byte>, k: nat)
    requires whole == first + tail && |first| == PACKAGE && k > 0 && (k - 1) * PACKAGE <= |tail|
    ensures k * PACKAGE <= |whole|
    ensures whole[..k * PACKAGE] == first + tail[..(k - 1) * PACKAGE] && whole[k * PACKAGE..] == tail[(k - 1) * PACKAGE..]
  {
    var m := (k - 1) * PACKAGE;
    assert k * PACKAGE == |first| + m;
    assert whole[..|first| + m] == first + tail[..m] && whole[|first| + m..] == tail[m..];
  }

  lemma FirstPayload(plain: seq<byte>, k: nat)
    requires k > 0 && k * PAYLOAD <= |plain|
    ensures plain[..k * PAYLOAD][..PAYLOAD] == plain[..PAYLOAD]
    ensures plain[..k * PAYLOAD][PAYLOAD..] == plain[PAYLOAD..][..(k - 1) * PAYLOAD]
    ensures plain[k * PAYLOAD..] == plain[PAYLOAD..][(k - 1) * PAYLOAD..]
  {
  }

  lemma {:induction false} SealFirst(c: Cipher, part: nat, num: nat, plain: seq<byte>)
    requires c.Valid() && |plain| >= PAYLOAD
    ensures SealPart(c, part, num, plain) == c.seal(part, num, plain[..PAYLOAD]) + SealPart(c, part, num + 1, plain[PAYLOAD..])
    ensures |c.seal(part, num, plain[..PAYLOAD])| == PACKAGE
  {
    if |plain| == PAYLOAD {
      assert plain[..PAYLOAD] == plain && plain[PAYLOAD..] == [];
    }
  }

  /** The first k packages are the packages of the first k payloads. */
  lemma {:induction false} SealPrefix(c: Cipher, part: nat, num: nat, plain: seq<byte>, k: nat)
    requires c.Valid() && k * PAYLOAD <= |plain|
    ensures k * PACKAGE <= |SealPart(c, part, num, plain)|
    ensures SealPart(c, part, num, plain)[..k * PACKAGE] == SealPart(c, part, num, plain[..k * PAYLOAD])
    decreases k
  {
    if k == 0 {
      assert plain[..0] == [];
    } else {
      SealPrefix(c, part, num + 1, plain[PAYLOAD..], k - 1);
      PrefixNext(c, part, num, plain, k);
    }
  }

  lemma {:induction false} PrefixNext(c: Cipher, part: nat, num: nat, plain: seq<byte>, k: nat)
    requires c.Valid() && 0 < k && k * PAYLOAD <= |plain|
    requires (k - 1) * PACKAGE <= |SealPart(c, part, num + 1, plain[PAYLOAD..])|
    requires SealPart(c, part, num + 1, plain[PAYLOAD..])[..(k - 1) * PACKAGE] == SealPart(c, part, num + 1, plain[PAYLOAD..][..(k - 1) * PAYLOAD])
    ensures k * PACKAGE <= |SealPart(c, part, num, plain)|
    ensures SealPart(c, part, num, plain)[..k * PACKAGE] == SealPart(c, part, num, plain[..k * PAYLOAD])
  {
    SealFirst(c, part, num, plain);
    SealHead(c, part, num, plain, k);
    FirstPackage(SealPart(c, part, num, plain), c.seal(part, num, plain[..PAYLOAD]), SealPart(c, part, num + 1, plain[PAYLOAD..]), k);
  }

  lemma {:induction false} SealHead(c: Cipher, part: nat, num: nat, plain: seq<byte>, k: nat)
    requires c.Valid() && 0 < k && k * PAYLOAD <= |plain|
    ensures SealPart(c, part, num, plain[..k * PAYLOAD])
         == c.seal(part, num, plain[..PAYLOAD]) + SealPart(c, part, num + 1, plain[PAYLOAD..][..(k - 1) * PAYLOAD])
  {
    FirstPayload(plain, k);
    SealFirst(c, part, num, plain[..k * PAYLOAD]);
  }

  /** Behind the first a packages come the packages of the remaining payload, numbered from a. */
  lemma {:induction false} SealSuffix(c: Cipher, part: nat, num: nat, plain: seq<byte>, a: nat)
    requires c.Valid() && a * PAYLOAD <= |plain|
    ensures a * PACKAGE <= |SealPart(c, part, num, plain)|
    ensures SealPart(c, part, num, plain)[a * PACKAGE..] == SealPart(c, part, num + a, plain[a * PAYLOAD..])
    decreases a
  {
    if a == 0 {
      assert plain[0..] == plain;
    } else {
      var rest, b := plain[PAYLOAD..], a - 1;
      SealSuffix(c, part, num + 1, rest, b);
      FirstPayload(plain, a);
      assert num + 1 + b == num + a;
      SuffixNext(c, part, num, plain, a, SealPart(c, part, num + a, plain[a * PAYLOAD..]));
    }
  }

  lemma {:induction false} SuffixNext(c: Cipher, part: nat, num: nat, plain: seq<byte>, a: nat, more: seq<byte>)
    requires c.Valid() && 0 < a && |plain| >= PAYLOAD && (a - 1) * PACKAGE <= |SealPart(c, part, num + 1, plain[PAYLOAD..])|
    requires SealPart(c, part, num + 1, plain[PAYLOAD..])[(a - 1) * PACKAGE..] == more
    ensures a * PACKAGE <= |SealPart(c, part, num, plain)| && SealPart(c, part, num, plain)[a * PACKAGE..] == more
  {
    SealFirst(c, part, num, plain);
    FirstPackage(SealPart(c, part, num, plain), c.seal(part, num, plain[..PAYLOAD]), SealPart(c, part, num + 1, plain[PAYLOAD..]), a);
  }

  // ---- cutting an object at package boundaries ----

  function EncSum(sizes: seq<nat>): nat { if sizes == [] then 0 else EncSize(sizes[0]) + EncSum(sizes[1..]) }

  function Sizes(parts: seq<Part>): (ss: seq<nat>)
    ensures |ss| == |parts|
  {
    seq(|parts|, i requires 0 <= i < |parts| => |parts[i].plain|)
  }

  lemma {:induction false} Totals(c: Cipher, parts: seq<Part>)
    requires c.Valid()
    ensures |Plain(parts)| == Sum(Sizes(parts)) && |SealParts(c, parts)| == EncSum(Sizes(parts))
  {
    PlainLength(parts);
    if parts != [] {
      assert Sizes(parts)[1..] == Sizes(parts[1..]);
      SealPartLength(c, parts[0].number, 0, parts[0].plain);
      Totals(c, parts[1..]);
    }
  }

  lemma {:induction false} PlainConcat(a: seq<Part>, b: seq<Part>)
    ensures Plain(a + b) == Plain(a) + Plain(b)
  {
    if a == [] {
      assert a + b == b;
    } else {
      assert (a + b)[1..] == a[1..] + b;
      PlainConcat(a[1..], b);
    }
  }

  lemma {:induction false} PlainLength(parts: seq<Part>)
    ensures |Plain(parts)| == Sum(Sizes(parts))
  {
    if parts != [] {
      assert Sizes(parts)[1..] == Sizes(parts[1..]);
      PlainLength(parts[1..]);
    }
  }

  lemma {:induction false} PlainSplit(parts: seq<Part>, k: nat)
    requires k < |parts|
    ensures Plain(parts) == Plain(parts[..k]) + (parts[k].plain + Plain(parts[k + 1..]))
  {
    PlainConcat(parts[..k], parts[k..]);
    assert parts[..k] + parts[k..] == parts && parts[k..][1..] == parts[k + 1..];
  }

  lemma {:induction false} PlainSnoc(parts: seq<Part>, p: Part)
    ensures Plain(parts + [p]) == Plain(parts) + p.plain
  {
    PlainConcat(parts, [p]);
    assert Plain([p]) == p.plain + Plain([]);
  }

  lemma {:induction false} PartsConcat(c: Cipher, a: seq<Part>, b: seq<Part>)
    ensures SealParts(c, a + b) == SealParts(c, a) + SealParts(c, b)
  {
    if a == [] {
      assert a + b == b;
    } else {
      assert (a + b)[1..] == a[1..] + b;
      PartsConcat(c, a[1..], b);
    }
  }

  lemma {:induction false} PartsSplit(c: Cipher, parts: seq<Part>, k: nat)
    requires k < |parts|
    ensures SealParts(c, parts)
         == SealParts(c, parts[..k]) + (SealPart(c, parts[k].number, 0, parts[k].plain) + SealParts(c, parts[k + 1..]))
  {
    PartsConcat(c, parts[..k], parts[k..]);
    assert parts[..k] + parts[k..] == parts && parts[k..][1..] == parts[k + 1..];
  }

  /** The part without what lies behind package b. */
  function CutPart(p: Part, b: nat): Part { p.(plain := p.plain[..Min(b * PAYLOAD, |p.plain|)]) }

  /** The object without what lies behind package b of part k. */
  function CutParts(parts: seq<Part>, k: nat, b: nat): (q: seq<Part>)
    requires k < |parts|
    ensures |q| == k + 1
  {
    parts[..k] + [CutPart(parts[k], b)]
  }

  lemma {:induction false} EncSizeAtLeast(n: nat, b: nat)
    ensures n <= b * PAYLOAD ==> EncSize(n) <= b * PACKAGE
    ensures n >= b * PAYLOAD ==> EncSize(n) >= b * PACKAGE && EncSize(n - b * PAYLOAD) == EncSize(n) - b * PACKAGE
  {
    if b > 0 && n > PAYLOAD {
      EncSizeAtLeast(n - PAYLOAD, b - 1);
    }
  }

  lemma {:induction false} CutSealed(c: Cipher, p: Part, b: nat)
    requires c.Valid()
    ensures var end := Min(b * PACKAGE, EncSize(|p.plain|));
            && end == EncSize(|CutPart(p, b).plain|) <= EncSize(|p.plain|)
            && end <= |SealPart(c, p.number, 0, p.plain)|
            && SealPart(c, p.number, 0, p.plain)[..end] == SealPart(c, p.number, 0, CutPart(p, b).plain)
  {
    SealPartLength(c, p.number, 0, p.plain);
    EncSizeAtLeast(|p.plain|, b);
    if b * PAYLOAD <= |p.plain| {
      SealPrefix(c, p.number, 0, p.plain, b);
      EncSizeAtLeast(b * PAYLOAD, b);
    } else {
      assert CutPart(p, b).plain == p.plain;
      assert SealPart(c, p.number, 0, p.plain)[..EncSize(|p.plain|)] == SealPart(c, p.number, 0, p.plain);
    }
  }

  lemma {:induction false} PartsSnoc(c: Cipher, parts: seq<Part>, p: Part)
    ensures SealParts(c, parts + [p]) == SealParts(c, parts) + SealPart(c, p.number, 0, p.plain)
  {
    PartsConcat(c, parts, [p]);
    assert SealParts(c, [p]) == SealPart(c, p.number, 0, p.plain) + SealParts(c, []);
  }

  /** The ciphertext up to package b of part k is the ciphertext of the object cut there. */
  lemma {:induction false} CutCiphertext(c: Cipher, parts: seq<Part>, k: nat, b: nat)
    requires c.Valid() && k < |parts|
    ensures var end := EncSum(Sizes(parts[..k])) + Min(b * PACKAGE, EncSize(|parts[k].plain|));
            end <= |SealParts(c, parts)| && SealParts(c, parts)[..end] == SealParts(c, CutParts(parts, k, b))
  {
    var p, n := parts[k], Min(b * PACKAGE, EncSize(|parts[k].plain|));
    Totals(c, parts[..k]);
    PartsSplit(c, parts, k);
    CutSealed(c, p, b);
    PartsSnoc(c, parts[..k], CutPart(p, b));
    TakeInside(SealParts(c, parts[..k]), SealPart(c, p.number, 0, p.plain), SealParts(c, parts[k + 1..]), n);
  }

  lemma {:induction false} CutPlaintext(parts: seq<Part>, k: nat, b: nat)
    requires k < |parts|
    ensures var end := Sum(Sizes(parts[..k])) + Min(b * PAYLOAD, |parts[k].plain|);
            end <= |Plain(parts)| && Plain(parts)[..end] == Plain(CutParts(parts, k, b))
  {
    var q := CutPart(parts[k], b);
    PlainLength(parts[..k]);
    PlainSplit(parts, k);
    PlainSnoc(parts[..k], q);
    TakeInside(Plain(parts[..k]), parts[k].plain, Plain(parts[k + 1..]), |q.plain|);
  }

  lemma TakeInside<T>(x: seq<T>, y: seq<T>, z: seq<T>, n: nat)
    requires n <= |y|
    ensures (x + (y + z))[..|x| + n] == x + y[..n]
  {
  }

  lemma DropInside<T>(x: seq<T>, y: seq<T>, z: seq<T>, n: nat)
    requires n <= |y|
    ensures (x + (y + z))[|x| + n..] == y[n..] + z
  {
  }

  /** The ciphertext from package a of part k on. */
  function Tail(c: Cipher, q: seq<Part>, a: nat): seq<byte>
    requires q != [] && a * PAYLOAD <= |q[0].plain|
  {
    SealPart(c, q[0].number, a, q[0].plain[a * PAYLOAD..]) + SealParts(c, q[1..])
  }

  lemma {:induction false} DropCiphertext(c: Cipher, parts: seq<Part>, k: nat, a: nat)
    requires c.Valid() && k < |parts| && a * PAYLOAD <= |parts[k].plain|
    ensures var at := EncSum(Sizes(parts[..k])) + a * PACKAGE;
            at <= |SealParts(c, parts)| && SealParts(c, parts)[at..] == Tail(c, parts[k..], a)
  {
    Totals(c, parts[..k]);
    PartsSplit(c, parts, k);
    SealSuffix(c, parts[k].number, 0, parts[k].plain, a);
    DropInside(SealParts(c, parts[..k]), SealPart(c, parts[k].number, 0, parts[k].plain), SealParts(c, parts[k + 1..]), a * PACKAGE);
    assert parts[k..][1..] == parts[k + 1..];
  }

  lemma {:induction false} DropPlaintext(parts: seq<Part>, k: nat, n: nat)
    requires k < |parts| && n <= |parts[k].plain|
    ensures var at := Sum(Sizes(parts[..k])) + n;
            at <= |Plain(parts)| && Plain(parts)[at..] == parts[k].plain[n..] + Plain(parts[k + 1..])
  {
    PlainLength(parts[..k]);
    PlainSplit(parts, k);
    DropInside(Plain(parts[..k]), parts[k].plain, Plain(parts[k + 1..]), n);
  }

  /** q is `parts` cut inside or behind its last part. */
  ghost predicate CutOf(q: seq<Part>, parts: seq<Part>) {
    && q != [] && |q| <= |parts|
    && (forall i :: 0 <= i < |q| - 1 ==> q[i] == parts[i])
    && var last := |q| - 1;
       q[last].number == parts[last].number && EncSize(|q[last].plain|) <= EncSize(|parts[last].plain|)
  }

  lemma {:induction false} OpensNothing(c: Cipher, parts: seq<StoredPart>)
    ensures OpenWindow(c, parts, 0, []) == Some([])
  {
    if parts != [] {
      OpensNothing(c, parts[1..]);
      OpenFirst(c, parts, 0, [], [], [], []);
    }
  }

  lemma OpenFirst(c: Cipher, parts: seq<StoredPart>, num: nat, piece: seq<byte>, more: seq<byte>, x: seq<byte>, y: seq<byte>)
    requires parts != [] && Min(Max(0, parts[0].size - num * PACKAGE), |piece| + |more|) == |piece|
    requires OpenPart(c, parts[0].number, num, piece) == Some(x) && OpenWindow(c, parts[1..], 0, more) == Some(y)
    ensures OpenWindow(c, parts, num, piece + more) == Some(x + y)
  {
    var w := piece + more;
    assert w[..|piece|] == piece && w[|piece|..] == more;
  }

  /** The rest of part p from package a on, when more ciphertext follows only if p was stored whole. */
  lemma OpenHead(c: Cipher, ss: seq<StoredPart>, p: Part, a: nat, more: seq<byte>, y: seq<byte>)
    requires c.Valid() && ss != [] && ss[0].number == p.number && a * PAYLOAD <= |p.plain|
    requires if more == [] then EncSize(|p.plain|) <= ss[0].size else EncSize(|p.plain|) == ss[0].size
    requires OpenWindow(c, ss[1..], 0, more) == Some(y)
    ensures var rest := p.plain[a * PAYLOAD..];
            OpenWindow(c, ss, a, SealPart(c, p.number, a, rest) + more) == Some(rest + y)
  {
    var rest := p.plain[a * PAYLOAD..];
    SealPartLength(c, p.number, a, rest);
    EncSizeAtLeast(|p.plain|, a);
    OpenAll(c, p.number, a, rest);
    OpenFirst(c, ss, a, SealPart(c, p.number, a, rest), more, rest, y);
  }

  /** The window decrypter, started at package a of the first part, opens a cut object to the rest of its plaintext. */
  lemma {:induction false} OpensCut(c: Cipher, parts: seq<Part>, q: seq<Part>, a: nat)
    requires c.Valid() && CutOf(q, parts) && a * PAYLOAD <= |q[0].plain|
    ensures OpenWindow(c, Store(parts), a, Tail(c, q, a)) == Some(q[0].plain[a * PAYLOAD..] + Plain(q[1..]))
    decreases |q|
  {
    var ss, q', parts' := Store(parts), q[1..], parts[1..];
    assert ss[1..] == Store(parts');
    if |q| == 1 {
      OpensNothing(c, ss[1..]);
      OpenHead(c, ss, q[0], a, [], []);
    } else {
      assert CutOf(q', parts');
      OpensCut(c, parts', q', 0);
      assert q'[0].plain[0..] == q'[0].plain;
      OpenHead(c, ss, q[0], a, SealParts(c, q'), Plain(q'));
    }
  }

  // ---- where a byte of the plaintext lies ----

  /** The part that holds plaintext byte x. */
  function PartOf(sizes: seq<nat>, x: nat): (k: nat)
    requires x < Sum(sizes)
    ensures k < |sizes|
  {
    if x < sizes[0] then 0 else 1 + PartOf(sizes[1..], x - sizes[0])
  }

  /** Its position in that part. */
  function Rel(sizes: seq<nat>, x: nat): (r: nat)
    requires x < Sum(sizes)
    ensures r < sizes[PartOf(sizes, x)]
  {
    if x < sizes[0] then x else Rel(sizes[1..], x - sizes[0])
  }

  /** First ciphertext byte of the package that holds it. */
  function PackageStart(sizes: seq<nat>, x: nat): nat
    requires x < Sum(sizes)
  {
    if x < sizes[0] then (x / PAYLOAD) * PACKAGE else EncSize(sizes[0]) + PackageStart(sizes[1..], x - sizes[0])
  }

  /** One past the last ciphertext byte of the package that holds it. */
  function PackageEnd(sizes: seq<nat>, x: nat): nat
    requires x < Sum(sizes)
  {
    if x < sizes[0] then Min((x / PAYLOAD + 1) * PACKAGE, EncSize(sizes[0]))
    else EncSize(sizes[0]) + PackageEnd(sizes[1..], x - sizes[0])
  }

  lemma {:induction false} Located(sizes: seq<nat>, x: nat)
    requires x < Sum(sizes)
    ensures var k, rel := PartOf(sizes, x), Rel(sizes, x);
            && x == Sum(sizes[..k]) + rel
            && PackageStart(sizes, x) == EncSum(sizes[..k]) + (rel / PAYLOAD) * PACKAGE
            && PackageEnd(sizes, x) == EncSum(sizes[..k]) + Min((rel / PAYLOAD + 1) * PACKAGE, EncSize(sizes[k]))
  {
    if x >= sizes[0] {
      Located(sizes[1..], x - sizes[0]);
      var k := PartOf(sizes, x);
      assert sizes[..k][1..] == sizes[1..][..k - 1];
    }
  }

  lemma {:induction false} PartOfIsThe(sizes: seq<nat>, x: nat, k: nat)
    requires k < |sizes| && Sum(sizes[..k]) <= x < Sum(sizes[..k]) + sizes[k]
    ensures x < Sum(sizes) && PartOf(sizes, x) == k && Rel(sizes, x) == x - Sum(sizes[..k])
  {
    if k > 0 {
      assert sizes[..k][1..] == sizes[1..][..k - 1];
      PartOfIsThe(sizes[1..], x - sizes[0], k - 1);
    }
  }

  lemma {:induction false} SumsStep(sizes: seq<nat>, k: nat)
    requires k < |sizes|
    ensures Sum(sizes[..k + 1]) == Sum(sizes[..k]) + sizes[k] && EncSum(sizes[..k + 1]) == EncSum(sizes[..k]) + EncSize(sizes[k])
  {
    if k == 0 {
      assert sizes[..1][1..] == [];
    } else {
      assert sizes[..k + 1][1..] == sizes[1..][..k] && sizes[..k][1..] == sizes[1..][..k - 1];
      SumsStep(sizes[1..], k - 1);
    }
  }

  lemma {:induction false} PartOfMono(sizes: seq<nat>, x: nat, y: nat)
    requires x <= y < Sum(sizes)
    ensures PartOf(sizes, x) <= PartOf(sizes, y)
    ensures PartOf(sizes, x) == PartOf(sizes, y) ==> Rel(sizes, x) <= Rel(sizes, y)
  {
    if x >= sizes[0] {
      PartOfMono(sizes[1..], x - sizes[0], y - sizes[0]);
    }
  }

  // ---- GetDecryptedRange ----

  /** A parsed range header: `bytes=a-b`, `bytes=a-` or the suffix form `bytes=-n` (start = -n). */
  datatype RangeSpec = RangeSpec(isSuffix: bool, start: int, end: int) {
    /** What the header parser lets through. */
    predicate WellFormed() { if isSuffix then start < 0 && end == -1 else start >= 0 && (end == -1 || start <= end) }

    function GetLength(size: nat): Option<int> {
      if isSuffix then Some(Min(-start, size))
      else if start >= size then None
      else if end > -1 then Some((if size <= end then size - 1 else end) - start + 1)
      else if end == -1 then Some(size - start)
      else None
    }

    function GetOffsetLength(size: nat): Option<(int, int)> {
      var length := GetLength(size);
      if length.None? then None else Some((if isSuffix then Max(size + start, 0) else start, length.value))
    }
  }

  /** Some byte-range of an object of this size can be meant: only a range that starts behind its end is refused. */
  predicate Satisfiable(rs: RangeSpec, size: nat) { rs.isSuffix || rs.start < size }

  /** The header asks for byte x of an object of this size: of the last -start bytes, or from start to end if there is one. */
  predicate Asked(rs: RangeSpec, size: nat, x: int) {
    0 <= x < size && if rs.isSuffix then x >= size + rs.start else rs.start <= x && (rs.end == -1 || x <= rs.end)
  }

  /** [off, off + length) are exactly the bytes asked for. */
  ghost predicate Covers(rs: RangeSpec, size: nat, off: int, length: int) {
    && 0 <= off && 0 <= length && off + length <= size && (length == 0 ==> size == 0)
    && forall x: int :: Asked(rs, size, x) <==> off <= x < off + length
  }

  /** A range that is accepted lies inside the object, holds exactly the bytes asked for, and is empty only if the object is. */
  lemma RangeInside(rs: RangeSpec, size: nat)
    requires rs.WellFormed()
    ensures rs.GetOffsetLength(size).Some? <==> Satisfiable(rs, size)
    ensures rs.GetOffsetLength(size).Some? ==>
              var (off, length) := rs.GetOffsetLength(size).value; Covers(rs, size, off, length)
  {
  }

  datatype EncWindow = EncWindow(encOff: int, encLength: int, skipLen: int, seqNumber: nat, partStart: nat)

  datatype RangeError = NotEncrypted | Tampered | InvalidRange

  datatype RangeResult = Window(window: EncWindow) | Refused(error: RangeError)

  /** `multipart` is the stored mark of a multipart upload; sizes are encrypted sizes. */
  datatype ObjectInfo = ObjectInfo(encrypted: bool, multipart: bool, erasure: bool, etag: string, size: nat, partSizes: seq<nat>) {
    /** With an ETag of 32 digits the erasure backend has split an object that was uploaded in one piece. */
    predicate IsEncryptedMultipart() {
      && partSizes != [] && multipart && (forall i :: 0 <= i < |partSizes| ==> DecryptedSize(partSizes[i]).Some?)
      && !(erasure && |etag| == 32)
    }

    /** The encrypted sizes of the DARE streams the object consists of. */
    function Streams(): seq<nat> { if IsEncryptedMultipart() then partSizes else [size] }
  }

  /** Decrypted sizes; None if one of the encrypted sizes is impossible. */
  function DecryptedSizes(sizes: seq<nat>): (r: Option<seq<nat>>)
    ensures r.Some? <==> forall i :: 0 <= i < |sizes| ==> DecryptedSize(sizes[i]).Some?
    ensures r.Some? ==> |r.value| == |sizes| && forall i :: 0 <= i < |sizes| ==> DecryptedSize(sizes[i]) == Some(r.value[i])
  {
    if sizes == [] then Some([]) else
    var rest := DecryptedSizes(sizes[1..]);
    if DecryptedSize(sizes[0]).None? || rest.None? then None else Some([DecryptedSize(sizes[0]).value] + rest.value)
  }

  /** The plaintext sizes found are within the limit. */
  lemma BoundedSizes(sizes: seq<nat>)
    requires DecryptedSizes(sizes).Some?
    ensures forall i :: 0 <= i < |sizes| ==> DecryptedSizes(sizes).value[i] <= MAX_DECRYPTED
  {
    var plain := DecryptedSizes(sizes).value;
    forall i | 0 <= i < |sizes| ensures plain[i] <= MAX_DECRYPTED {
      SizesInverse(plain[i], sizes[i]);
    }
  }

  /** What the window of a non-empty range [off, off + length) is, byte by byte. */
  ghost predicate IsWindow(sizes: seq<nat>, off: nat, length: nat, w: EncWindow)
    requires length > 0 && off + length <= Sum(sizes)
  {
    && w.partStart == PartOf(sizes, off)
    && w.seqNumber == Rel(sizes, off) / PAYLOAD && w.skipLen == Rel(sizes, off) % PAYLOAD
    && w.encOff == PackageStart(sizes, off)
    && w.encOff + w.encLength == PackageEnd(sizes, off + length - 1)
  }

  /** [off, off + length) are the bytes asked for, and w is where they lie. */
  ghost predicate LocatedAt(sizes: seq<nat>, rs: RangeSpec, w: EncWindow, off: int, length: int) {
    && Covers(rs, Sum(sizes), off, length)
    && if length == 0 then w == EncWindow(0, 0, 0, 0, 0) else IsWindow(sizes, off, length, w)
  }

  /** A range of a stream of parts with these plaintext sizes is refused if it is unsatisfiable, else located. */
  ghost predicate Locates(sizes: seq<nat>, rs: RangeSpec, r: RangeResult) {
    && (r == Refused(InvalidRange) <==> !Satisfiable(rs, Sum(sizes)))
    && (Satisfiable(rs, Sum(sizes)) ==> r.Window? && exists off: int, length: int :: LocatedAt(sizes, rs, r.window, off, length))
  }

  lemma {:induction false} ZeroSums(sizes: seq<nat>, k: nat)
    requires Sum(sizes) == 0 && k <= |sizes|
    ensures Sum(sizes[..k]) == EncSum(sizes[..k]) == 0 && (k < |sizes| ==> sizes[k] == 0)
  {
    if k > 0 {
      assert sizes[..k][1..] == sizes[1..][..k - 1];
      ZeroSums(sizes[1..], k - 1);
    }
  }

  /**
   * The first part from `from` on that ends behind x, and the sizes of all parts before it. In an object
   * without any bytes no part need be found.
   */
  method LocatePart(sizes: seq<nat>, from: nat, x: int, cumulative: nat, encCumulative: nat)
    returns (part: nat, cumulativeSum: nat, encCumulativeSum: nat)
    requires from < |sizes| && cumulative == Sum(sizes[..from]) && encCumulative == EncSum(sizes[..from])
    requires cumulative <= x < Sum(sizes) || (Sum(sizes) == 0 && from == 0)
    ensures part < |sizes|
    ensures 0 <= x < Sum(sizes) ==>
              part == PartOf(sizes, x) && cumulativeSum == Sum(sizes[..part]) && encCumulativeSum == EncSum(sizes[..part])
    ensures Sum(sizes) == 0 && x <= 0 ==> cumulativeSum == 0 && encCumulativeSum == 0 && part == 0
  {
    part, cumulativeSum, encCumulativeSum := 0, cumulative, encCumulative;
    var i := from;
    while i < |sizes|
      invariant from <= i <= |sizes| && part == 0
      invariant cumulativeSum == Sum(sizes[..i]) && encCumulativeSum == EncSum(sizes[..i])
      invariant x < 0 ==> i == from
      invariant 0 <= x < Sum(sizes) ==> cumulativeSum <= x
    {
      SumsStep(sizes, i);
      if x < cumulativeSum + sizes[i] {
        part := i;
        if x >= 0 && x < Sum(sizes) { PartOfIsThe(sizes, x, i); }
        if Sum(sizes) == 0 { ZeroSums(sizes, i); }
        return;
      }
      cumulativeSum := cumulativeSum + sizes[i];
      encCumulativeSum := encCumulativeSum + EncSize(sizes[i]);
      i := i + 1;
    }
    assert sizes[..i] == sizes;
    if Sum(sizes) == 0 { ZeroSums(sizes, i); }
  }

  /**
   * `GetDecryptedRange`. The window of a non-empty range starts with the package that holds its first byte and
   * ends with the package that holds its last one; an empty range (of an empty object) has an empty window.
   */
  method GetDecryptedRange(o: ObjectInfo, rs: Option<RangeSpec>) returns (r: RangeResult)
    requires rs.Some? ==> rs.value.WellFormed()
    ensures r == Refused(NotEncrypted) <==> !o.encrypted
    ensures o.encrypted && rs.None? ==> r == Window(EncWindow(0, o.size, 0, 0, 0))
    ensures o.encrypted && rs.Some? ==>
              var plain := DecryptedSizes(o.Streams());
              && (r == Refused(Tampered) <==> plain.None?)
              && (plain.Some? ==> Locates(plain.value, rs.value, r))
  {
    if !o.encrypted {
      return Refused(NotEncrypted);
    }
    if rs.None? {
      return Window(EncWindow(0, o.size, 0, 0, 0));
    }
    var plain := DecryptedSizes(o.Streams());
    if plain.None? {
      return Refused(Tampered);
    }
    var sizes := plain.value;
    var range := rs.value.GetOffsetLength(Sum(sizes));
    if range.None? {
      return Refused(InvalidRange);
    }
    var (off, length) := range.value;
    RangeInside(rs.value, Sum(sizes));
    BoundedSizes(o.Streams());
    var w := WindowOfRange(sizes, off, length);
    assert LocatedAt(sizes, rs.value, w, off, length);
    return Window(w);
  }

  /** The package number of a byte of a stream within the 256 TB limit fits in 32 bits. */
  lemma SequenceNumberFits(rel: nat)
    requires rel < MAX_DECRYPTED
    ensures rel / PAYLOAD < 0x1_0000_0000 && (rel / PAYLOAD) % 0x1_0000_0000 == rel / PAYLOAD
  {
    assert MAX_DECRYPTED == 0x1_0000_0000 * PAYLOAD;
  }

  /** The part, the package and the bytes to skip where the range starts. */
  method WindowStart(sizes: seq<nat>, off: nat)
    returns (partStart: nat, cumulativeSum: nat, encCumulativeSum: nat, encOff: nat, skipLen: nat, startPkgNum: nat)
    requires sizes != [] && (off < Sum(sizes) || off == Sum(sizes) == 0)
    requires forall i :: 0 <= i < |sizes| ==> sizes[i] <= MAX_DECRYPTED
    ensures partStart < |sizes|
    ensures off < Sum(sizes) ==>
              && partStart == PartOf(sizes, off) && cumulativeSum == Sum(sizes[..partStart]) && encCumulativeSum == EncSum(sizes[..partStart])
              && encOff == PackageStart(sizes, off) && skipLen == Rel(sizes, off) % PAYLOAD
              && startPkgNum == Rel(sizes, off) / PAYLOAD < 0x1_0000_0000
    ensures Sum(sizes) == 0 ==> partStart == cumulativeSum == encCumulativeSum == encOff == skipLen == startPkgNum == 0
  {
    assert sizes[..0] == [];
    partStart, cumulativeSum, encCumulativeSum := LocatePart(sizes, 0, off, 0, 0);
    if off < Sum(sizes) {
      Located(sizes, off);
      SequenceNumberFits(Rel(sizes, off));
    }
    startPkgNum, skipLen := (off - cumulativeSum) / PAYLOAD, (off - cumulativeSum) % PAYLOAD;
    encOff := encCumulativeSum + startPkgNum * PACKAGE;
  }

  /** The end of the package that holds byte x, searched from part `from` on. */
  method WindowEnd(sizes: seq<nat>, from: nat, x: int, cumulative: nat, encCumulative: nat) returns (endEncOffset: int)
    requires from < |sizes| && cumulative == Sum(sizes[..from]) && encCumulative == EncSum(sizes[..from])
    requires cumulative <= x < Sum(sizes) || (Sum(sizes) == 0 && from == 0)
    ensures 0 <= x < Sum(sizes) ==> endEncOffset == PackageEnd(sizes, x)
    ensures Sum(sizes) == 0 && x == -1 ==> endEncOffset == 0
  {
    var partEnd, cumulativeSum, encCumulativeSum := LocatePart(sizes, from, x, cumulative, encCumulative);
    if 0 <= x < Sum(sizes) {
      Located(sizes, x);
    } else if Sum(sizes) == 0 {
      ZeroSums(sizes, 0);
    }
    var endPkgNum := TruncDiv(x - cumulativeSum, PAYLOAD);
    var lastPartSize := EncSize(sizes[partEnd]);
    endEncOffset := encCumulativeSum + (endPkgNum + 1) * PACKAGE;
    if endEncOffset > encCumulativeSum + lastPartSize {
      endEncOffset := encCumulativeSum + lastPartSize;
    }
  }

  method WindowOfRange(sizes: seq<nat>, off: nat, length: nat) returns (w: EncWindow)
    requires sizes != [] && off + length <= Sum(sizes) && (length == 0 ==> Sum(sizes) == 0)
    requires forall i :: 0 <= i < |sizes| ==> sizes[i] <= MAX_DECRYPTED
    ensures length > 0 ==> IsWindow(sizes, off, length, w)
    ensures length == 0 ==> w == EncWindow(0, 0, 0, 0, 0)
  {
    var partStart, cumulativeSum, encCumulativeSum, encOff, skipLen, startPkgNum := WindowStart(sizes, off);
    assert sizes[..0] == [];
    if length > 0 { Located(sizes, off); }
    var endEncOffset := WindowEnd(sizes, partStart, off + length - 1, cumulativeSum, encCumulativeSum);
    w := EncWindow(encOff, endEncOffset - encOff, skipLen, startPkgNum % 0x1_0000_0000, partStart);
  }

  // ---- the window decrypts to the range ----

  lemma {:induction false} CutTail(c: Cipher, parts: seq<Part>, ps: nat, a: nat, pe: nat, b: nat)
    requires c.Valid() && ps <= pe < |parts| && (ps == pe ==> a <= b) && a * PAYLOAD <= |parts[ps].plain|
    ensures var q := CutParts(parts, pe, b);
            && q[..ps] == parts[..ps] && a * PAYLOAD <= |q[ps].plain| && CutOf(q[ps..], parts[ps..])
  {
    CutSealed(c, parts[pe], b);
    if ps == pe { MulMono(a, b, PAYLOAD); }
    var q := CutParts(parts, pe, b);
    assert q[..ps] == parts[..ps];
    forall i | 0 <= i < |q[ps..]| - 1 ensures q[ps..][i] == parts[ps..][i] {
      assert q[ps..][i] == q[ps + i];
    }
    assert q[ps..][pe - ps] == CutPart(parts[pe], b) && parts[ps..][pe - ps] == parts[pe];
  }

  lemma SliceBoth<T>(s: seq<T>, lo: nat, hi: nat, head: seq<T>, mid: seq<T>)
    requires hi <= |s| && s[..hi] == head && lo <= |head| && head[lo..] == mid
    ensures lo <= hi && s[lo..hi] == mid
  {
  }

  /** [lo, hi) is the ciphertext and [from, to) the plaintext from package a of part ps to package b of part pe. */
  ghost predicate Between(parts: seq<Part>, ps: nat, a: nat, pe: nat, b: nat, lo: nat, hi: nat, from: nat, to: nat) {
    && ps <= pe < |parts| && (ps == pe ==> a <= b) && a * PAYLOAD <= |parts[ps].plain|
    && lo == EncSum(Sizes(parts[..ps])) + a * PACKAGE && from == Sum(Sizes(parts[..ps])) + a * PAYLOAD
    && hi == EncSum(Sizes(parts[..pe])) + Min(b * PACKAGE, EncSize(|parts[pe].plain|))
    && to == Sum(Sizes(parts[..pe])) + Min(b * PAYLOAD, |parts[pe].plain|)
  }

  lemma {:induction false} BetweenCiphertext(c: Cipher, parts: seq<Part>, ps: nat, a: nat, pe: nat, b: nat, lo: nat, hi: nat, from: nat, to: nat)
    requires c.Valid() && Between(parts, ps, a, pe, b, lo, hi, from, to)
    ensures var q := CutParts(parts, pe, b)[ps..];
            && a * PAYLOAD <= |q[0].plain| && CutOf(q, parts[ps..])
            && lo <= hi <= |SealParts(c, parts)| && SealParts(c, parts)[lo..hi] == Tail(c, q, a)
  {
    var q := CutParts(parts, pe, b);
    CutTail(c, parts, ps, a, pe, b);
    CutCiphertext(c, parts, pe, b);
    DropCiphertext(c, q, ps, a);
    SliceBoth(SealParts(c, parts), lo, hi, SealParts(c, q), Tail(c, q[ps..], a));
  }

  lemma {:induction false} BetweenPlaintext(c: Cipher, parts: seq<Part>, ps: nat, a: nat, pe: nat, b: nat, lo: nat, hi: nat, from: nat, to: nat)
    requires c.Valid() && Between(parts, ps, a, pe, b, lo, hi, from, to)
    ensures var q := CutParts(parts, pe, b)[ps..];
            && a * PAYLOAD <= |q[0].plain|
            && from <= to <= |Plain(parts)| && Plain(parts)[from..to] == q[0].plain[a * PAYLOAD..] + Plain(q[1..])
  {
    var q := CutParts(parts, pe, b);
    CutTail(c, parts, ps, a, pe, b);
    CutPlaintext(parts, pe, b);
    DropPlaintext(q, ps, a * PAYLOAD);
    assert q[ps..][1..] == q[ps + 1..];
    SliceBoth(Plain(parts), from, to, Plain(q), q[ps].plain[a * PAYLOAD..] + Plain(q[ps + 1..]));
  }

  lemma {:induction false} OpensBetween(c: Cipher, parts: seq<Part>, ps: nat, a: nat, pe: nat, b: nat, lo: nat, hi: nat, from: nat, to: nat)
    requires c.Valid() && Between(parts, ps, a, pe, b, lo, hi, from, to)
    ensures lo <= hi <= |SealParts(c, parts)| && from <= to <= |Plain(parts)|
    ensures OpenWindow(c, Store(parts)[ps..], a, SealParts(c, parts)[lo..hi]) == Some(Plain(parts)[from..to])
  {
    BetweenCiphertext(c, parts, ps, a, pe, b, lo, hi, from, to);
    BetweenPlaintext(c, parts, ps, a, pe, b, lo, hi, from, to);
    assert Store(parts)[ps..] == Store(parts[ps..]);
    OpensCut(c, parts[ps..], CutParts(parts, pe, b)[ps..], a);
  }

  /** The whole payloads that hold bytes rel1 to rel2 of the parts starting at s1 and s2. */
  lemma PayloadsCover(s1: nat, rel1: nat, s2: nat, rel2: nat, size2: nat) returns (a: nat, b: nat, from: nat, to: nat)
    requires s1 + rel1 <= s2 + rel2 && rel2 < size2
    ensures a == rel1 / PAYLOAD && b == rel2 / PAYLOAD + 1 && (rel1 <= rel2 ==> a <= b) && a * PAYLOAD <= rel1
    ensures from == s1 + a * PAYLOAD && to == s2 + Min(b * PAYLOAD, size2)
    ensures from + rel1 % PAYLOAD == s1 + rel1 && s2 + rel2 < to <= s2 + rel2 + PAYLOAD
  {
    a, b := rel1 / PAYLOAD, rel2 / PAYLOAD + 1;
    from, to := s1 + a * PAYLOAD, s2 + Min(b * PAYLOAD, size2);
  }

  lemma {:induction false} LocatedIn(parts: seq<Part>, x: nat) returns (k: nat, rel: nat)
    requires x < Sum(Sizes(parts))
    ensures k == PartOf(Sizes(parts), x) && k < |parts| && rel == Rel(Sizes(parts), x) < |parts[k].plain|
    ensures x == Sum(Sizes(parts[..k])) + rel
    ensures PackageStart(Sizes(parts), x) == EncSum(Sizes(parts[..k])) + (rel / PAYLOAD) * PACKAGE
    ensures PackageEnd(Sizes(parts), x)
         == EncSum(Sizes(parts[..k])) + Min((rel / PAYLOAD + 1) * PACKAGE, EncSize(|parts[k].plain|))
  {
    Located(Sizes(parts), x);
    k, rel := PartOf(Sizes(parts), x), Rel(Sizes(parts), x);
    assert Sizes(parts)[..k] == Sizes(parts[..k]);
  }

  /** Where the window of a range begins and ends, in ciphertext and in plaintext. */
  lemma {:induction false} WindowEnds(parts: seq<Part>, off: nat, length: nat, w: EncWindow)
    returns (pe: nat, b: nat, lo: nat, hi: nat, from: nat, to: nat, skip: nat)
    requires length > 0 && off + length <= Sum(Sizes(parts)) && IsWindow(Sizes(parts), off, length, w)
    ensures lo == w.encOff && hi == w.encOff + w.encLength && skip == w.skipLen < PAYLOAD
    ensures Between(parts, w.partStart, w.seqNumber, pe, b, lo, hi, from, to)
    ensures from + skip == off && off + length <= to < off + length + PAYLOAD
  {
    var ps, rel := LocatedIn(parts, off);
    var rel';
    pe, rel' := LocatedIn(parts, off + length - 1);
    PartOfMono(Sizes(parts), off, off + length - 1);
    var a;
    lo, hi, skip := w.encOff, w.encOff + w.encLength, w.skipLen;
    a, b, from, to := PayloadsCover(Sum(Sizes(parts[..ps])), rel, Sum(Sizes(parts[..pe])), rel', |parts[pe].plain|);
  }

  lemma {:induction false} RangeBetween(c: Cipher, parts: seq<Part>, ps: nat, a: nat, pe: nat, b: nat, lo: nat, hi: nat, from: nat, to: nat,
                     skip: nat, off: nat, length: nat)
    requires c.Valid() && Between(parts, ps, a, pe, b, lo, hi, from, to)
    requires skip < PAYLOAD && from + skip == off && off + length <= to < off + length + PAYLOAD
    ensures lo <= hi <= |SealParts(c, parts)| && to <= |Plain(parts)|
    ensures HoldsRange(OpenWindow(c, Store(parts)[ps..], a, SealParts(c, parts)[lo..hi]),
                       skip, Plain(parts)[off..off + length])
  {
    OpensBetween(c, parts, ps, a, pe, b, lo, hi, from, to);
    SliceOfSlice(Plain(parts), from, to, skip, skip + length);
  }

  /**
   * For every multipart object and every non-empty range in bounds: the window lies inside the ciphertext;
   * opening it part by part from partStart at seqNumber, dropping skipLen bytes and taking `length` gives
   * exactly the range; and less than one package's payload is read too much at either end.
   */
  lemma {:induction false} WindowGivesRange(c: Cipher, parts: seq<Part>, off: nat, length: nat, w: EncWindow)
    requires c.Valid() && length > 0 && off + length <= Sum(Sizes(parts)) && IsWindow(Sizes(parts), off, length, w)
    ensures |Plain(parts)| == Sum(Sizes(parts)) && w.partStart < |parts|
    ensures 0 <= w.encOff <= w.encOff + w.encLength <= |SealParts(c, parts)|
    ensures HoldsRange(OpenWindow(c, Store(parts)[w.partStart..], w.seqNumber, SealParts(c, parts)[w.encOff..w.encOff + w.encLength]),
                       w.skipLen, Plain(parts)[off..off + length])
  {
    assert |Plain(parts)| == Sum(Sizes(parts)) by { PlainLength(parts); }
    var pe, b, lo, hi, from, to, skip := WindowEnds(parts, off, length, w);
    RangeBetween(c, parts, w.partStart, w.seqNumber, pe, b, lo, hi, from, to, skip, off, length);
  }

  /** The window opened holds the range behind `skip` bytes, and less than one payload too much at either end. */
  ghost predicate HoldsRange(window: Option<seq<byte>>, skip: int, range: seq<byte>) {
    && window.Some? && 0 <= skip < PAYLOAD
    && skip + |range| <= |window.value| < skip + |range| + PAYLOAD
    && window.value[skip..skip + |range|] == range
  }

  lemma StoredSizes(c: Cipher, parts: seq<Part>)
    requires c.Valid() && forall i :: 0 <= i < |parts| ==> |parts[i].plain| <= MAX_DECRYPTED
    ensures var sizes := seq(|parts|, i requires 0 <= i < |parts| => Store(parts)[i].size);
            DecryptedSizes(sizes) == Some(Sizes(parts))
  {
    var sizes := seq(|parts|, i requires 0 <= i < |parts| => Store(parts)[i].size);
    forall i | 0 <= i < |sizes| ensures DecryptedSize(sizes[i]) == Some(Sizes(parts)[i]) {
      var n := |parts[i].plain|;
      EncSizeIs(n);
      SizesInverse(n, sizes[i]);
    }
    assert DecryptedSizes(sizes).value == Sizes(parts);
  }

  /** `got` are the bytes of `plain` that the header asks for. */
  ghost predicate Answers(rs: RangeSpec, plain: seq<byte>, got: seq<byte>) {
    exists off: int, length: int :: Covers(rs, |plain|, off, length) && got == plain[off..off + length]
  }

  /**
   * A ranged read of a stored multipart object: it locates the window from the encrypted part sizes alone, opens
   * it, drops the skipped bytes and delivers exactly the bytes of the plaintext asked for; it fails exactly for
   * the ranges that the object cannot satisfy. On the erasure backend the ETag of a multipart upload is longer than
   * 32 digits: an MD5 and the number of parts.
   */
  method ReadRange(c: Cipher, parts: seq<Part>, rs: RangeSpec, erasure: bool, etag: string) returns (r: Option<seq<byte>>)
    requires c.Valid() && parts != [] && rs.WellFormed() && !(erasure && |etag| == 32)
    requires forall i :: 0 <= i < |parts| ==> |parts[i].plain| <= MAX_DECRYPTED
    ensures r.None? <==> !Satisfiable(rs, |Plain(parts)|)
    ensures r.Some? ==> Answers(rs, Plain(parts), r.value)
  {
    StoredSizes(c, parts);
    var sizes := seq(|parts|, i requires 0 <= i < |parts| => Store(parts)[i].size);
    var o := ObjectInfo(true, true, erasure, etag, |SealParts(c, parts)|, sizes);
    assert o.Streams() == sizes;
    r := ReadStreams(c, parts, rs, o);
  }

  /**
   * The same of an object stored as one stream: without the mark of a multipart upload, without parts, with parts that
   * cannot be streams of their own, or split into parts by the erasure backend itself.
   */
  method ReadSingle(c: Cipher, part: Part, rs: RangeSpec, multipart: bool, erasure: bool, etag: string, partSizes: seq<nat>)
    returns (r: Option<seq<byte>>)
    requires c.Valid() && rs.WellFormed() && |part.plain| <= MAX_DECRYPTED
    requires !multipart || partSizes == [] || (exists i :: 0 <= i < |partSizes| && DecryptedSize(partSizes[i]).None?)
             || (erasure && |etag| == 32)
    ensures r.None? <==> !Satisfiable(rs, |part.plain|)
    ensures r.Some? ==> Answers(rs, part.plain, r.value)
  {
    StoredSizes(c, [part]);
    Totals(c, [part]);
    assert Plain([part]) == part.plain + Plain([]) && Sizes([part]) == [|part.plain|];
    var o := ObjectInfo(true, multipart, erasure, etag, |SealParts(c, [part])|, partSizes);
    assert EncSum([|part.plain|]) == EncSize(|part.plain|) + EncSum([]);
    assert o.Streams() == seq(1, i requires 0 <= i < 1 => Store([part])[i].size);
    r := ReadStreams(c, [part], rs, o);
  }

  method ReadStreams(c: Cipher, parts: seq<Part>, rs: RangeSpec, o: ObjectInfo) returns (r: Option<seq<byte>>)
    requires c.Valid() && rs.WellFormed() && o.encrypted && DecryptedSizes(o.Streams()) == Some(Sizes(parts))
    ensures r.None? <==> !Satisfiable(rs, |Plain(parts)|)
    ensures r.Some? ==> Answers(rs, Plain(parts), r.value)
  {
    var got := GetDecryptedRange(o, Some(rs));
    Totals(c, parts);
    if got.Refused? {
      return None;
    }
    var range := LocatedHere(Sizes(parts), rs, got.window, |Plain(parts)|);
    var plain := OpenLocated(c, parts, rs, range.0, range.1, got.window);
    return Some(plain);
  }

  /** The range located is the one computed from the header. */
  method LocatedHere(ghost sizes: seq<nat>, rs: RangeSpec, w: EncWindow, size: nat) returns (range: (int, int))
    requires rs.WellFormed() && size == Sum(sizes) && exists off: int, length: int :: LocatedAt(sizes, rs, w, off, length)
    requires Satisfiable(rs, size)
    ensures LocatedAt(sizes, rs, w, range.0, range.1)
  {
    ghost var off: int, length: int :| LocatedAt(sizes, rs, w, off, length);
    RangeInside(rs, size);
    range := rs.GetOffsetLength(size).value;
    CoversOnce(rs, size, off, length, range.0, range.1);
  }

  method OpenLocated(c: Cipher, parts: seq<Part>, rs: RangeSpec, off: int, length: int, w: EncWindow) returns (plain: seq<byte>)
    requires c.Valid() && LocatedAt(Sizes(parts), rs, w, off, length)
    ensures Answers(rs, Plain(parts), plain)
  {
    assert |Plain(parts)| == Sum(Sizes(parts)) by { PlainLength(parts); }
    if length == 0 {
      assert Plain(parts)[off..off + length] == [];
      return [];
    }
    plain := OpenRange(c, parts, off, length, w);
  }

  lemma CoversOnce(rs: RangeSpec, size: nat, off: int, length: int, off': int, length': int)
    requires Covers(rs, size, off, length) && Covers(rs, size, off', length')
    ensures length == length' && (length > 0 ==> off == off')
  {
    if length > 0 {
      assert Asked(rs, size, off) && Asked(rs, size, off + length - 1);
    }
    if length' > 0 {
      assert Asked(rs, size, off') && Asked(rs, size, off' + length' - 1);
    }
  }

  method OpenRange(c: Cipher, parts: seq<Part>, off: nat, length: nat, w: EncWindow) returns (plain: seq<byte>)
    requires c.Valid() && length > 0 && off + length <= Sum(Sizes(parts)) && IsWindow(Sizes(parts), off, length, w)
    ensures |Plain(parts)| == Sum(Sizes(parts)) && plain == Plain(parts)[off..off + length]
  {
    WindowGivesRange(c, parts, off, length, w);
    var stored := SealParts(c, parts);
    var r := OpenWindow(c, Store(parts)[w.partStart..], w.seqNumber, stored[w.encOff..w.encOff + w.encLength]);
    plain := r.value[w.skipLen..w.skipLen + length];
  }

  /** A format that pads: there are ciphers in the sense of `Valid`. */
  function PaddingCipher(): Cipher {
    Cipher((part, num, p) => p + seq(OVERHEAD, i => 0),
           (part, num, s: seq<byte>) => if |s| < OVERHEAD then None else Some(s[..|s| - OVERHEAD]))
  }

  lemma PaddingIsValid()
    ensures PaddingCipher().Valid()
  {
    forall part, num, p: seq<byte> | 0 < |p| <= PAYLOAD
      ensures PaddingCipher().open(part, num, PaddingCipher().seal(part, num, p)) == Some(p)
    {
      assert (p + seq(OVERHEAD, i => 0 as byte))[..|p|] == p;
    }
  }

  // ---- the single-part arithmetic ----

  /** `getEncryptedSinglePartOffsetLength` for an object of n plaintext bytes. */
  function SinglePartOffsetLength(offset: nat, length: nat, n: nat): (nat, int, int) {
    var seqNumber := (offset / PAYLOAD) % 0x1_0000_0000;
    var encOffset := seqNumber * PACKAGE;
    var encLength := ((offset + length) / PAYLOAD) * PACKAGE - encOffset
                     + if (offset + length) % PAYLOAD > 0 then PACKAGE else 0;
    (seqNumber, encOffset, if encLength + encOffset > EncSize(n) then EncSize(n) - encOffset else encLength)
  }

  lemma OnePart(n: nat, x: nat)
    requires x < n
    ensures Sum([n]) == n && PartOf([n], x) == 0 && Rel([n], x) == x
    ensures PackageStart([n], x) == (x / PAYLOAD) * PACKAGE
    ensures PackageEnd([n], x) == Min((x / PAYLOAD + 1) * PACKAGE, EncSize(n))
  {
    assert Sum([n]) == n + Sum([]);
  }

  /** Rounding the end of a range up to a package is going to the end of the package of its last byte. */
  lemma RoundedUp(x: nat)
    requires x > 0
    ensures (x / PAYLOAD) * PACKAGE + (if x % PAYLOAD > 0 then PACKAGE else 0) == ((x - 1) / PAYLOAD + 1) * PACKAGE
  {
    if x % PAYLOAD == 0 {
      DivUnique(x - 1, PAYLOAD, x / PAYLOAD - 1);
    } else {
      DivUnique(x - 1, PAYLOAD, x / PAYLOAD);
    }
  }

  /** For every single-part object and non-empty range it computes the same window as GetDecryptedRange. */
  lemma SinglePartAgrees(offset: nat, length: nat, n: nat)
    requires 0 < length && offset + length <= n <= MAX_DECRYPTED
    ensures Sum([n]) == n
    ensures var (seqNumber, encOffset, encLength) := SinglePartOffsetLength(offset, length, n);
            IsWindow([n], offset, length, EncWindow(encOffset, encLength, offset % PAYLOAD, seqNumber, 0))
  {
    OnePart(n, offset);
    OnePart(n, offset + length - 1);
    SequenceNumberFits(offset);
    RoundedUp(offset + length);
  }
}
