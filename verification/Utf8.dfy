/** UTF-8 as Go's conversions between strings and rune slices see it (section 3 of RFC 3629). */
module Utf8 {
  import opened Bytes

  type rune = r: int | 0 <= r < 0x110000

  const REPLACEMENT: rune := 0xFFFD

  function ToByte(x: int): byte
    requires 0 <= x < 256
  {
    x as byte
  }

  function EncodeRune(r: rune): (s: bytes)
    ensures 1 <= |s| <= 4
  {
    if r < 0x80 then [ToByte(r)]
    else if r < 0x800 then [ToByte(0xC0 + r / 64), ToByte(0x80 + r % 64)]
    else if 0xD800 <= r < 0xE000 then [0xEF, 0xBF, 0xBD]
    else if r < 0x10000 then [ToByte(0xE0 + r / 64 / 64), ToByte(0x80 + r / 64 % 64), ToByte(0x80 + r % 64)]
    else [ToByte(0xF0 + r / 64 / 64 / 64), ToByte(0x80 + r / 64 / 64 % 64), ToByte(0x80 + r / 64 % 64), ToByte(0x80 + r % 64)]
  }

  function Encode(rs: seq<rune>): bytes {
    if |rs| == 0 then [] else EncodeRune(rs[0]) + Encode(rs[1..])
  }

  predicate IsTail(b: byte) { 0x80 <= b < 0xC0 }

  predicate TwoBytes(a: byte, b: byte) { 0xC2 <= a <= 0xDF && IsTail(b) }

  /** Excludes overlong forms and surrogates. */
  predicate ThreeBytes(a: byte, b: byte, c: byte) {
    && 0xE0 <= a <= 0xEF && IsTail(b) && IsTail(c)
    && (a == 0xE0 ==> b >= 0xA0) && (a == 0xED ==> b < 0xA0)
  }

  /** Excludes overlong forms and values past 0x10FFFF. */
  predicate FourBytes(a: byte, b: byte, c: byte, d: byte) {
    && 0xF0 <= a <= 0xF4 && IsTail(b) && IsTail(c) && IsTail(d)
    && (a == 0xF0 ==> b >= 0x90) && (a == 0xF4 ==> b < 0x90)
  }

  function Rune2(a: byte, b: byte): (r: rune)
    requires TwoBytes(a, b)
  {
    (a as int - 0xC0) * 64 + (b as int - 0x80)
  }

  function Rune3(a: byte, b: byte, c: byte): (r: rune)
    requires ThreeBytes(a, b, c)
  {
    ((a as int - 0xE0) * 64 + (b as int - 0x80)) * 64 + (c as int - 0x80)
  }

  function Rune4(a: byte, b: byte, c: byte, d: byte): (r: rune)
    requires FourBytes(a, b, c, d)
  {
    (((a as int - 0xF0) * 64 + (b as int - 0x80)) * 64 + (c as int - 0x80)) * 64 + (d as int - 0x80)
  }

  /** The first character of s, and how many bytes it takes; bad marks a byte that starts none. */
  datatype Head = Head(r: rune, width: nat, bad: bool)

  function DecodeHead(s: bytes): (h: Head)
    requires |s| > 0
    ensures 1 <= h.width <= |s|
  {
    if s[0] < 0x80 then Head(s[0] as int, 1, false)
    else if |s| >= 2 && TwoBytes(s[0], s[1]) then Head(Rune2(s[0], s[1]), 2, false)
    else if |s| >= 3 && ThreeBytes(s[0], s[1], s[2]) then Head(Rune3(s[0], s[1], s[2]), 3, false)
    else if |s| >= 4 && FourBytes(s[0], s[1], s[2], s[3]) then Head(Rune4(s[0], s[1], s[2], s[3]), 4, false)
    else Head(REPLACEMENT, 1, true)
  }

  function Decode(s: bytes): seq<rune> {
    if |s| == 0 then [] else var h := DecodeHead(s); [h.r] + Decode(s[h.width..])
  }

  predicate ValidUtf8(s: bytes) {
    |s| == 0 || (var h := DecodeHead(s); !h.bad && ValidUtf8(s[h.width..]))
  }

  lemma Encode2(a: byte, b: byte)
    requires TwoBytes(a, b)
    ensures EncodeRune(Rune2(a, b)) == [a, b]
  {
  }

  lemma Encode3(a: byte, b: byte, c: byte)
    requires ThreeBytes(a, b, c)
    ensures EncodeRune(Rune3(a, b, c)) == [a, b, c]
  {
    var r := Rune3(a, b, c);
    assert r % 64 == c as int - 0x80;
    assert r / 64 == (a as int - 0xE0) * 64 + (b as int - 0x80);
    assert r / 64 % 64 == b as int - 0x80;
    assert r / 64 / 64 == a as int - 0xE0;
  }

  lemma Encode4(a: byte, b: byte, c: byte, d: byte)
    requires FourBytes(a, b, c, d)
    ensures EncodeRune(Rune4(a, b, c, d)) == [a, b, c, d]
  {
    var r := Rune4(a, b, c, d);
    assert r % 64 == d as int - 0x80;
    assert r / 64 == ((a as int - 0xF0) * 64 + (b as int - 0x80)) * 64 + (c as int - 0x80);
    assert r / 64 % 64 == c as int - 0x80;
    assert r / 64 / 64 == (a as int - 0xF0) * 64 + (b as int - 0x80);
    assert r / 64 / 64 % 64 == b as int - 0x80;
    assert r / 64 / 64 / 64 == a as int - 0xF0;
  }

  lemma HeadRoundTrip(s: bytes)
    requires |s| > 0
    ensures var h := DecodeHead(s);
            if h.bad then |EncodeRune(h.r)| == 3 && h.width == 1 else EncodeRune(h.r) == s[..h.width]
  {
    if s[0] < 0x80 {
    } else if |s| >= 2 && TwoBytes(s[0], s[1]) {
      Encode2(s[0], s[1]);
    } else if |s| >= 3 && ThreeBytes(s[0], s[1], s[2]) {
      Encode3(s[0], s[1], s[2]);
    } else if |s| >= 4 && FourBytes(s[0], s[1], s[2], s[3]) {
      Encode4(s[0], s[1], s[2], s[3]);
    }
  }

  lemma {:induction false} ReencodeStep(s: bytes)
    requires |s| > 0
    ensures var h := DecodeHead(s);
            Encode(Decode(s)) == EncodeRune(h.r) + Encode(Decode(s[h.width..]))
  {
    EncodeHead(DecodeHead(s).r, Decode(s[DecodeHead(s).width..]));
  }

  /** Each byte that starts no character costs two more bytes on the way back, so only valid text survives. */
  lemma {:induction false} EncodeOfDecode(s: bytes)
    ensures |Encode(Decode(s))| >= |s|
    ensures Encode(Decode(s)) == s <==> ValidUtf8(s)
    ensures |Encode(Decode(s))| == |s| <==> ValidUtf8(s)
    decreases |s|
  {
    if |s| > 0 {
      var h := DecodeHead(s);
      var rest := s[h.width..];
      HeadRoundTrip(s);
      ReencodeStep(s);
      EncodeOfDecode(rest);
      if h.bad {
        assert |Encode(Decode(s))| == 3 + |Encode(Decode(rest))|;
      } else {
        SamePieces(s, h.width, Encode(Decode(rest)));
      }
    }
  }

  lemma SamePieces(s: bytes, n: nat, e: bytes)
    requires n <= |s|
    ensures s[..n] + e == s <==> e == s[n..]
  {
    assert s == s[..n] + s[n..];
    SameHead(s[..n], e, s[n..]);
  }

  lemma {:induction false} EncodeHead(r: rune, rs: seq<rune>)
    ensures Encode([r] + rs) == EncodeRune(r) + Encode(rs)
  {
  }

  lemma {:induction false} EncodeAppend(a: seq<rune>, b: seq<rune>)
    ensures Encode(a + b) == Encode(a) + Encode(b)
  {
    if |a| == 0 {
      assert a + b == b;
    } else {
      EncodeAppend(a[1..], b);
      assert a + b == [a[0]] + (a[1..] + b) && a == [a[0]] + a[1..];
      EncodeHead(a[0], a[1..] + b);
      EncodeHead(a[0], a[1..]);
      Associate(EncodeRune(a[0]), Encode(a[1..]), Encode(b));
    }
  }

  // ---- The other direction ----

  /** Everything but the surrogates. */
  predicate IsScalar(r: rune) { r < 0xD800 || r >= 0xE000 }

  /** A surrogate is written as the replacement character. */
  lemma SurrogatesReplaced(r: rune)
    ensures !IsScalar(r) ==> EncodeRune(r) == [0xEF, 0xBF, 0xBD]
  {
  }

  lemma DecodeEncoded(r: rune)
    requires IsScalar(r)
    ensures DecodeHead(EncodeRune(r)) == Head(r, |EncodeRune(r)|, false)
  {
    if 0x800 <= r < 0x10000 {
      DecodeEncoded3(r);
    } else if r >= 0x10000 {
      DecodeEncoded4(r);
    }
  }

  lemma DecodeEncoded3(r: rune)
    requires IsScalar(r) && 0x800 <= r < 0x10000
    ensures DecodeHead(EncodeRune(r)) == Head(r, 3, false)
  {
    var a, b := r / 64 / 64, r / 64 % 64;
    assert r / 64 == a * 64 + b && r == r / 64 * 64 + r % 64;
    assert a < 16 && (a == 0 ==> b >= 32) && (a == 13 ==> b < 32);
  }

  lemma DecodeEncoded4(r: rune)
    requires 0x10000 <= r
    ensures DecodeHead(EncodeRune(r)) == Head(r, 4, false)
  {
    var a, b, c := r / 64 / 64 / 64, r / 64 / 64 % 64, r / 64 % 64;
    assert r / 64 / 64 == a * 64 + b && r / 64 == r / 64 / 64 * 64 + c && r == r / 64 * 64 + r % 64;
    assert a <= 4 && (a == 0 ==> b >= 16) && (a == 4 ==> b < 16);
  }

  /** A complete character at the front is decoded alike whatever follows it. */
  lemma HeadIgnoresRest(s: bytes, rest: bytes)
    requires |s| > 0 && !DecodeHead(s).bad && DecodeHead(s).width == |s|
    ensures DecodeHead(s + rest) == DecodeHead(s)
  {
  }

  lemma {:induction false} DecodeOfEncode(rs: seq<rune>)
    requires forall i :: 0 <= i < |rs| ==> IsScalar(rs[i])
    ensures Decode(Encode(rs)) == rs && ValidUtf8(Encode(rs))
  {
    if |rs| > 0 {
      var first, rest := EncodeRune(rs[0]), Encode(rs[1..]);
      DecodeOfEncode(rs[1..]);
      DecodeEncoded(rs[0]);
      HeadIgnoresRest(first, rest);
      assert (first + rest)[|first|..] == rest;
    }
  }

  // ---- White space ----

  /** The characters with Unicode's White_Space property. */
  predicate IsSpaceRune(r: rune) {
    || 9 <= r <= 13 || r == 32 || r == 0x85 || r == 0xA0 || r == 0x1680 || 0x2000 <= r <= 0x200A
    || r == 0x2028 || r == 0x2029 || r == 0x202F || r == 0x205F || r == 0x3000
  }

  lemma TwoByteSpaces(a: byte, b: byte)
    requires TwoBytes(a, b)
    ensures IsTwoByteSpace(a, b) <==> IsSpaceRune(Rune2(a, b))
  {
  }

  lemma ThreeByteSpaces(a: byte, b: byte, c: byte)
    requires ThreeBytes(a, b, c)
    ensures IsThreeByteSpace(a, b, c) <==> IsSpaceRune(Rune3(a, b, c))
  {
  }

  /** What trimming takes off the front, character by character, is exactly Unicode white space. */
  lemma SpaceIsWhiteSpace(s: bytes)
    requires |s| > 0
    ensures var h := DecodeHead(s);
            SpaceAtFront(s) == if !h.bad && IsSpaceRune(h.r) then h.width else 0
  {
    if |s| >= 2 && TwoBytes(s[0], s[1]) {
      TwoByteSpaces(s[0], s[1]);
    } else if |s| >= 3 && ThreeBytes(s[0], s[1], s[2]) {
      ThreeByteSpaces(s[0], s[1], s[2]);
    }
  }
}
