/** Byte strings and the handful of Go string operations the modelled code uses on them. */
module Bytes {
  newtype byte = x: int | 0 <= x < 256

  type bytes = seq<byte>

  const CR: byte := 13
  const LF: byte := 10
  const SPACE: byte := 32

  // ---- Searching ----

  predicate OccursAt(s: bytes, sub: bytes, i: int) {
    0 <= i <= |s| - |sub| && s[i..i + |sub|] == sub
  }

  /** The first position of sub in s at or after i, or -1. */
  function IndexFrom(s: bytes, sub: bytes, i: nat): (r: int)
    ensures r == -1 || (i <= r && OccursAt(s, sub, r))
    ensures forall j :: i <= j && OccursAt(s, sub, j) ==> 0 <= r <= j
    decreases |s| - i
  {
    if i + |sub| > |s| then -1
    else if OccursAt(s, sub, i) then i
    else IndexFrom(s, sub, i + 1)
  }

  /** The first position of sub in s, or -1. */
  function Index(s: bytes, sub: bytes): (r: int)
    ensures r == -1 || OccursAt(s, sub, r)
    ensures forall j :: OccursAt(s, sub, j) ==> 0 <= r <= j
  {
    IndexFrom(s, sub, 0)
  }

  lemma OccursByte(s: bytes, b: byte, i: int)
    ensures OccursAt(s, [b], i) <==> 0 <= i < |s| && s[i] == b
  {
  }

  lemma IndexAbsent(s: bytes, b: byte)
    requires b !in s
    ensures Index(s, [b]) == -1
  {
    forall i ensures OccursAt(s, [b], i) <==> 0 <= i < |s| && s[i] == b { OccursByte(s, b, i); }
  }

  lemma IndexAfter(s: bytes, b: byte, rest: bytes)
    requires b !in s
    ensures Index(s + [b] + rest, [b]) == |s|
  {
    var t := s + [b] + rest;
    forall i ensures OccursAt(t, [b], i) <==> 0 <= i < |t| && t[i] == b { OccursByte(t, b, i); }
    assert t[|s|] == b && t[..|s|] == s;
    assert forall i :: 0 <= i < |s| ==> t[i] == s[i] && t[i] in s;
  }

  lemma SameHead(head: bytes, x: bytes, y: bytes)
    ensures head + x == head + y <==> x == y
  {
    if head + x == head + y {
      assert x == (head + x)[|head|..] && y == (head + y)[|head|..];
    }
  }

  lemma Associate(x: bytes, y: bytes, z: bytes)
    ensures (x + y) + z == x + (y + z)
  {
  }

  // ---- White space ----

  predicate IsAsciiSpace(b: byte) {
    b == SPACE || 9 <= b <= 13
  }

  /** The UTF-8 encodings of the white space characters outside ASCII. */
  predicate IsTwoByteSpace(a: byte, b: byte) {
    a == 0xC2 && (b == 0x85 || b == 0xA0)
  }

  predicate IsThreeByteSpace(a: byte, b: byte, c: byte) {
    || (a == 0xE1 && b == 0x9A && c == 0x80)
    || (a == 0xE2 && b == 0x80 && (0x80 <= c <= 0x8A || c == 0xA8 || c == 0xA9 || c == 0xAF))
    || (a == 0xE2 && b == 0x81 && c == 0x9F)
    || (a == 0xE3 && b == 0x80 && c == 0x80)
  }

  /** How many bytes the white space character at the front of s takes, 0 if there is none. */
  function SpaceAtFront(s: bytes): (n: nat)
    ensures n <= |s|
  {
    if |s| >= 1 && IsAsciiSpace(s[0]) then 1
    else if |s| >= 2 && IsTwoByteSpace(s[0], s[1]) then 2
    else if |s| >= 3 && IsThreeByteSpace(s[0], s[1], s[2]) then 3
    else 0
  }

  function SpaceAtBack(s: bytes): (n: nat)
    ensures n <= |s|
  {
    if |s| >= 1 && IsAsciiSpace(s[|s| - 1]) then 1
    else if |s| >= 2 && IsTwoByteSpace(s[|s| - 2], s[|s| - 1]) then 2
    else if |s| >= 3 && IsThreeByteSpace(s[|s| - 3], s[|s| - 2], s[|s| - 1]) then 3
    else 0
  }

  /** How many bytes of white space s starts with. */
  function LeadingSpace(s: bytes): (n: nat)
    ensures n <= |s|
    decreases |s|
  {
    var n := SpaceAtFront(s);
    if n == 0 then 0 else n + LeadingSpace(s[n..])
  }

  function TrailingSpace(s: bytes): (n: nat)
    ensures n <= |s|
    decreases |s|
  {
    var n := SpaceAtBack(s);
    if n == 0 then 0 else n + TrailingSpace(s[..|s| - n])
  }

  function TrimLeft(s: bytes): bytes {
    s[LeadingSpace(s)..]
  }

  function TrimRight(s: bytes): bytes {
    s[..|s| - TrailingSpace(s)]
  }

  function TrimSpace(s: bytes): bytes {
    TrimRight(TrimLeft(s))
  }

  /** Text that trimming leaves alone. */
  predicate Trimmed(s: bytes) {
    SpaceAtFront(s) == 0 && SpaceAtBack(s) == 0
  }

  lemma TrimTrimmed(s: bytes)
    requires Trimmed(s)
    ensures TrimSpace(s) == s
  {
    assert s[0..] == s && s[..|s|] == s;
  }

  /** One white space character in front counts by its width. */
  lemma {:induction false} LeadingStep(s: bytes, n: nat)
    requires n == SpaceAtFront(s) > 0
    ensures LeadingSpace(s) == n + LeadingSpace(s[n..]) && TrimLeft(s) == TrimLeft(s[n..])
  {
  }

  lemma {:induction false} TrailingStep(s: bytes, n: nat)
    requires n == SpaceAtBack(s) > 0
    ensures TrailingSpace(s) == n + TrailingSpace(s[..|s| - n]) && TrimRight(s) == TrimRight(s[..|s| - n])
  {
  }

  /** A separating space before trimmed text is trimmed away again. */
  lemma TrimAfterSpace(s: bytes)
    requires Trimmed(s)
    ensures TrimSpace([SPACE] + s) == s
  {
    assert ([SPACE] + s)[1..] == s;
    LeadingStep([SPACE] + s, 1);
    TrimTrimmed(s);
  }

  lemma {:induction false} TrimLeftDone(s: bytes)
    ensures SpaceAtFront(TrimLeft(s)) == 0
    decreases |s|
  {
    var n := SpaceAtFront(s);
    if n > 0 {
      LeadingStep(s, n);
      TrimLeftDone(s[n..]);
    } else {
      assert s[0..] == s;
    }
  }

  lemma {:induction false} TrimRightDone(s: bytes)
    ensures SpaceAtBack(TrimRight(s)) == 0
    decreases |s|
  {
    var n := SpaceAtBack(s);
    if n > 0 {
      TrailingStep(s, n);
      TrimRightDone(s[..|s| - n]);
    } else {
      assert s[..|s|] == s;
    }
  }

  /** Cutting text off the end makes no white space character at the front. */
  lemma FrontOfPrefix(p: bytes, s: bytes)
    requires p <= s && SpaceAtFront(s) == 0
    ensures SpaceAtFront(p) == 0
  {
  }

  lemma TrimmedByTrim(s: bytes)
    ensures Trimmed(TrimSpace(s))
  {
    TrimLeftDone(s);
    TrimRightDone(TrimLeft(s));
    FrontOfPrefix(TrimSpace(s), TrimLeft(s));
  }

  /** The white space character at the back is one at the front of what is left from there, and the other way round. */
  lemma SpaceAtBackIff(s: bytes, n: nat)
    requires 0 < n <= |s|
    ensures SpaceAtBack(s) == n <==> SpaceAtFront(s[|s| - n..]) == n
  {
    var t := s[|s| - n..];
    assert t[0] == s[|s| - n] && (n >= 2 ==> t[1] == s[|s| - n + 1]) && (n >= 3 ==> t[2] == s[|s| - n + 2]);
  }

  predicate AsciiSpaces(s: bytes) {
    forall i :: 0 <= i < |s| ==> s[i] == 32 || 9 <= s[i] <= 13
  }

  lemma {:induction false} LeadingAscii(w: bytes, s: bytes)
    requires AsciiSpaces(w)
    ensures TrimLeft(w + s) == TrimLeft(s)
  {
    if w == [] {
      assert w + s == s;
    } else {
      assert (w + s)[1..] == w[1..] + s;
      LeadingStep(w + s, 1);
      LeadingAscii(w[1..], s);
    }
  }

  lemma {:induction false} TrailingAscii(s: bytes, w: bytes)
    requires AsciiSpaces(w)
    ensures TrimRight(s + w) == TrimRight(s)
  {
    if w == [] {
      assert s + w == s;
    } else {
      var n := |w| - 1;
      assert (s + w)[..|s + w| - 1] == s + w[..n];
      TrailingStep(s + w, 1);
      TrailingAscii(s, w[..n]);
    }
  }

  lemma FrontBefore(s: bytes, w: bytes)
    requires s != [] && SpaceAtFront(s) == 0 && AsciiSpaces(w)
    ensures SpaceAtFront(s + w) == 0
  {
    var t := s + w;
    assert t[0] == s[0];
    assert |s| >= 2 ==> t[1] == s[1];
    assert |s| == 1 && |t| >= 2 ==> t[1] == w[0];
    assert |s| >= 3 ==> t[2] == s[2];
    assert |s| == 2 && |t| >= 3 ==> t[2] == w[0];
  }

  /** Spaces, tabs and line breaks around trimmed text are trimmed away, and nothing else is. */
  lemma TrimAround(before: bytes, s: bytes, after: bytes)
    requires AsciiSpaces(before) && AsciiSpaces(after) && s != [] && Trimmed(s)
    ensures TrimSpace(before + s + after) == s
  {
    assert before + s + after == before + (s + after);
    LeadingAscii(before, s + after);
    FrontBefore(s, after);
    assert TrimLeft(s + after) == s + after;
    TrailingAscii(s, after);
    TrimTrimmed(s);
    assert TrimLeft(s) == s;
  }

  // ---- Text of white space only ----

  predicate Blank(s: bytes)
    decreases |s|
  {
    |s| == 0 || (SpaceAtFront(s) > 0 && Blank(s[SpaceAtFront(s)..]))
  }

  lemma {:induction false} BlankIsLeading(s: bytes)
    ensures Blank(s) <==> LeadingSpace(s) == |s|
    decreases |s|
  {
    var n := SpaceAtFront(s);
    if n > 0 {
      BlankIsLeading(s[n..]);
    }
  }

  /** What trimming from the right takes away whole starts with a white space character. */
  lemma {:induction false} AllTrailing(s: bytes)
    requires |s| > 0 && TrailingSpace(s) == |s|
    ensures SpaceAtFront(s) > 0
    decreases |s|
  {
    var n := SpaceAtBack(s);
    if n < |s| {
      AllTrailing(s[..|s| - n]);
      if SpaceAtFront(s) == 0 {
        FrontOfPrefix(s[..|s| - n], s);
      }
    }
  }

  /** Trimming leaves nothing of exactly the texts that consist of white space characters. */
  lemma {:induction false} TrimsToNothing(s: bytes)
    ensures TrimSpace(s) == [] <==> Blank(s)
  {
    var l := TrimLeft(s);
    BlankIsLeading(s);
    TrimLeftDone(s);
    if |l| > 0 && TrailingSpace(l) == |l| {
      AllTrailing(l);
    }
  }

  // ---- Bytes that trimming never removes ----

  predicate Visible(b: byte) {
    32 < b < 128
  }

  lemma {:induction false} LeadingStopsAt(s: bytes, i: nat)
    requires i < |s| && Visible(s[i])
    ensures LeadingSpace(s) <= i
    decreases |s|
  {
    var n := SpaceAtFront(s);
    if n > 0 {
      LeadingStopsAt(s[n..], i - n);
    }
  }

  lemma {:induction false} TrailingStopsAt(s: bytes, i: nat)
    requires i < |s| && Visible(s[i])
    ensures i < |s| - TrailingSpace(s)
    decreases |s|
  {
    var n := SpaceAtBack(s);
    if n > 0 {
      TrailingStopsAt(s[..|s| - n], i);
    }
  }
}
