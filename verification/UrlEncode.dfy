/** The URL encoding of names in listings: percent-encoding, '+' for a space, and '/' and '*' left as they are. */
module UrlEncode {
  import opened Bytes

  const SPACE: byte := 0x20
  const PLUS: byte := 0x2B
  const PERCENT: byte := 0x25
  const BUFFER_SIZE := 64

  predicate ShouldEscape(c: byte) {
    if (0x41 <= c <= 0x5A) || (0x61 <= c <= 0x7A) || (0x30 <= c <= 0x39) then false
    else c !in [0x2D, 0x5F, 0x2E, 0x2F, 0x2A]
  }

  /** "0123456789ABCDEF"[n] */
  function HexDigit(n: int): byte
    requires 0 <= n < 16
  {
    if n < 10 then (0x30 + n) as byte else (0x41 + n - 10) as byte
  }

  // ---- the reference: byte by byte ----

  function EncodeByte(c: byte): seq<byte> {
    if c == SPACE then [PLUS]
    else if ShouldEscape(c) then [PERCENT, HexDigit(c as int / 16), HexDigit(c as int % 16)]
    else [c]
  }

  function Encode(s: seq<byte>): seq<byte> {
    if s == [] then [] else EncodeByte(s[0]) + Encode(s[1..])
  }

  function HexCount(s: seq<byte>): nat {
    if s == [] then 0 else (if ShouldEscape(s[0]) && s[0] != SPACE then 1 else 0) + HexCount(s[1..])
  }

  function SpaceCount(s: seq<byte>): nat {
    if s == [] then 0 else (if s[0] == SPACE then 1 else 0) + SpaceCount(s[1..])
  }

  /** The bytes left as they are: letters, digits, and `-`, `_`, `.`, `/` and `*`. */
  predicate Safe(c: byte) {
    var ch := c as int as char;
    'A' <= ch <= 'Z' || 'a' <= ch <= 'z' || '0' <= ch <= '9' || ch == '-' || ch == '_' || ch == '.' || ch == '/' || ch == '*'
  }

  /** `bytes` are these characters. */
  predicate Spells(bytes: seq<byte>, text: string) {
    |bytes| == |text| && forall i :: 0 <= i < |text| ==> bytes[i] as int == text[i] as int
  }

  lemma HexDigitIs(n: int)
    requires 0 <= n < 16
    ensures HexDigit(n) as int == "0123456789ABCDEF"[n] as int
  {
    assert forall k :: 0 <= k < 10 ==> "0123456789ABCDEF"[k] as int == 0x30 + k;
  }

  /** One byte: it stays exactly if it is safe; a space becomes `+`, anything else `%` and two upper-case hex digits. */
  lemma EncodeOne(c: byte)
    ensures Encode([c]) == [c] <==> Safe(c)
    ensures c as int == ' ' as int ==> Spells(Encode([c]), "+")
    ensures !Safe(c) && c as int != ' ' as int ==>
              Spells(Encode([c]), ['%', "0123456789ABCDEF"[c as int / 16], "0123456789ABCDEF"[c as int % 16]])
  {
    assert Encode([c]) == EncodeByte(c) + Encode([]);
    HexDigitIs(c as int / 16);
    HexDigitIs(c as int % 16);
  }

  /** The encoding goes byte by byte. */
  lemma {:induction false} EncodeConcat(a: seq<byte>, b: seq<byte>)
    ensures Encode(a + b) == Encode(a) + Encode(b)
    ensures HexCount(a + b) == HexCount(a) + HexCount(b) && SpaceCount(a + b) == SpaceCount(a) + SpaceCount(b)
  {
    if a == [] {
      assert a + b == b;
    } else {
      assert (a + b)[1..] == a[1..] + b;
      EncodeConcat(a[1..], b);
    }
  }

  lemma EncodeSnoc(s: seq<byte>, i: nat)
    requires i < |s|
    ensures Encode(s[..i + 1]) == Encode(s[..i]) + EncodeByte(s[i])
    ensures HexCount(s[..i + 1]) == HexCount(s[..i]) + if ShouldEscape(s[i]) && s[i] != SPACE then 1 else 0
    ensures SpaceCount(s[..i + 1]) == SpaceCount(s[..i]) + if s[i] == SPACE then 1 else 0
  {
    TakeSnoc(s, i);
    EncodeConcat(s[..i], [s[i]]);
    assert Encode([s[i]]) == EncodeByte(s[i]) + Encode([]);
    assert HexCount([s[i]]) == (if ShouldEscape(s[i]) && s[i] != SPACE then 1 else 0) + HexCount([]);
    assert SpaceCount([s[i]]) == (if s[i] == SPACE then 1 else 0) + SpaceCount([]);
  }

  /** The buffer the encoder reserves is exactly what the encoding needs. */
  lemma {:induction false} EncodedLength(s: seq<byte>)
    ensures |Encode(s)| == |s| + 2 * HexCount(s)
  {
    if s != [] {
      EncodedLength(s[1..]);
    }
  }

  lemma {:induction false} NothingToEscape(s: seq<byte>)
    requires HexCount(s) == 0 && SpaceCount(s) == 0
    ensures Encode(s) == s
  {
    if s != [] {
      NothingToEscape(s[1..]);
    }
  }

  lemma {:induction false} OnlySpaces(s: seq<byte>, i: nat)
    requires HexCount(s) == 0 && i < |s|
    ensures |Encode(s)| == |s| && Encode(s)[i] == if s[i] == SPACE then PLUS else s[i]
  {
    EncodedLength(s);
    if i > 0 {
      OnlySpaces(s[1..], i - 1);
    }
  }

  lemma RoomFor(s: seq<byte>, i: nat)
    requires i < |s|
    ensures |Encode(s[..i])| + |EncodeByte(s[i])| <= |Encode(s)|
  {
    EncodeSnoc(s, i);
    assert s == s[..i + 1] + s[i + 1..];
    EncodeConcat(s[..i + 1], s[i + 1..]);
  }

  // ---- the encoder ----

  method CountEscapes(s: seq<byte>) returns (spaceCount: nat, hexCount: nat)
    ensures spaceCount == SpaceCount(s) && hexCount == HexCount(s)
  {
    spaceCount, hexCount := 0, 0;
    var i := 0;
    while i < |s|
      invariant i <= |s| && spaceCount == SpaceCount(s[..i]) && hexCount == HexCount(s[..i])
    {
      EncodeSnoc(s, i);
      var c := s[i];
      if ShouldEscape(c) {
        if c == SPACE {
          spaceCount := spaceCount + 1;
        } else {
          hexCount := hexCount + 1;
        }
      }
      i := i + 1;
    }
    assert s[..i] == s;
  }

  /** Without percent signs: a copy in which spaces are overwritten. */
  method CopyWithPlus(s: seq<byte>, t: array<byte>)
    requires HexCount(s) == 0 && |s| <= t.Length
    modifies t
    ensures t[..|s|] == Encode(s)
  {
    forall i | 0 <= i < |s| {
      t[i] := s[i];
    }
    var i := 0;
    while i < |s|
      invariant i <= |s|
      invariant forall k :: 0 <= k < |s| ==> t[k] == if k < i && s[k] == SPACE then PLUS else s[k]
    {
      if s[i] == SPACE {
        t[i] := PLUS;
      }
      i := i + 1;
    }
    EncodedLength(s);
    forall k | 0 <= k < |s| ensures t[k] == Encode(s)[k] {
      OnlySpaces(s, k);
    }
  }

  /** Byte by byte into the buffer, with an index of its own for the output. */
  method FillEscaped(s: seq<byte>, t: array<byte>)
    requires |Encode(s)| <= t.Length
    modifies t
    ensures t[..|Encode(s)|] == Encode(s)
  {
    var i, j := 0, 0;
    while i < |s|
      invariant i <= |s| && j == |Encode(s[..i])| && j <= t.Length && t[..j] == Encode(s[..i])
    {
      EncodeSnoc(s, i);
      RoomFor(s, i);
      var c := s[i];
      if c == SPACE {
        t[j] := PLUS;
        j := j + 1;
      } else if ShouldEscape(c) {
        t[j] := PERCENT;
        t[j + 1] := HexDigit(c as int / 16);
        t[j + 2] := HexDigit(c as int % 16);
        j := j + 3;
      } else {
        t[j] := s[i];
        j := j + 1;
      }
      i := i + 1;
    }
    assert s[..i] == s;
  }

  /** `s3URLEncode`: on all of its paths the byte-by-byte encoding. */
  method S3URLEncode(s: seq<byte>) returns (r: seq<byte>)
    ensures r == Encode(s)
  {
    var spaceCount, hexCount := CountEscapes(s);
    EncodedLength(s);
    if spaceCount == 0 && hexCount == 0 {
      NothingToEscape(s);
      return s;
    }
    var required := |s| + 2 * hexCount;
    var t := new byte[if required <= BUFFER_SIZE then BUFFER_SIZE else required];
    if hexCount == 0 {
      CopyWithPlus(s, t);
      return t[..required];
    }
    FillEscaped(s, t);
    return t[..required];
  }

  // ---- the inverse ----

  function HexValue(c: byte): Option<int> {
    if 0x30 <= c <= 0x39 then Some(c as int - 0x30)
    else if 0x41 <= c <= 0x46 then Some(c as int - 0x41 + 10)
    else if 0x61 <= c <= 0x66 then Some(c as int - 0x61 + 10)
    else None
  }

  /** Unescaping as for query strings and forms; None for a malformed percent-encoding. */
  function Unescape(s: seq<byte>): Option<seq<byte>> {
    if s == [] then Some([])
    else if s[0] == PERCENT then
      if |s| < 3 then None else
      var hi, lo, rest := HexValue(s[1]), HexValue(s[2]), Unescape(s[3..]);
      if hi.None? || lo.None? || rest.None? || hi.value * 16 + lo.value > 255 || hi.value * 16 + lo.value < 0 then None
      else Some([(hi.value * 16 + lo.value) as byte] + rest.value)
    else
      var rest := Unescape(s[1..]);
      if rest.None? then None else Some([if s[0] == PLUS then SPACE else s[0]] + rest.value)
  }

  lemma HexInverts(n: int)
    requires 0 <= n < 16
    ensures HexValue(HexDigit(n)) == Some(n)
  {
  }

  lemma UnescapeByte(c: byte, rest: seq<byte>, data: seq<byte>)
    requires Unescape(rest) == Some(data)
    ensures Unescape(EncodeByte(c) + rest) == Some([c] + data)
  {
    var s := EncodeByte(c) + rest;
    if ShouldEscape(c) && c != SPACE {
      HexInverts(c as int / 16);
      HexInverts(c as int % 16);
      assert s[3..] == rest;
    } else {
      assert s[1..] == rest;
    }
  }

  /** Whatever was encoded is recovered. */
  lemma {:induction false} RoundTrip(s: seq<byte>)
    ensures Unescape(Encode(s)) == Some(s)
  {
    if s != [] {
      RoundTrip(s[1..]);
      UnescapeByte(s[0], Encode(s[1..]), s[1..]);
      assert s == [s[0]] + s[1..];
    }
  }

  /** Different names have different encodings. */
  lemma Injective(a: seq<byte>, b: seq<byte>)
    requires Encode(a) == Encode(b)
    ensures a == b
  {
    RoundTrip(a);
    RoundTrip(b);
  }

  /** The characters an encoding consists of. */
  predicate Plain(c: byte) { Safe(c) || c as int == '+' as int || c as int == '%' as int }

  lemma {:induction false} EncodedIsPlain(s: seq<byte>)
    ensures forall i :: 0 <= i < |Encode(s)| ==> Plain(Encode(s)[i])
  {
    if s != [] {
      EncodedIsPlain(s[1..]);
    }
  }
}
