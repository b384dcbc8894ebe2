/**
 The generator that rewrites the matrix block between two markers of a page, and
 the extractor that reads it back. The pair is studied as a lens: what replacing
 keeps, what a second replacement undoes, and what is read back.
 */
module MatrixBlock {
  import opened Options
  import opened Bytes

  // "<!-- BEGIN GENERATED editions-matrix -->"
  const BEGIN_MARKER: bytes :=
    [60, 33, 45, 45, 32, 66, 69, 71, 73, 78, 32, 71, 69, 78, 69, 82, 65, 84, 69, 68, 32, 101, 100, 105, 116, 105, 111, 110, 115, 45, 109, 97, 116, 114, 105, 120, 32, 45, 45, 62]

  // "<!-- END GENERATED editions-matrix -->"
  const END_MARKER: bytes :=
    [60, 33, 45, 45, 32, 69, 78, 68, 32, 71, 69, 78, 69, 82, 65, 84, 69, 68, 32, 101, 100, 105, 116, 105, 111, 110, 115, 45, 109, 97, 116, 114, 105, 120, 32, 45, 45, 62]

  datatype Error = BeginMissing | EndMissing | EndBeforeBegin
  datatype Result = Ok(text: bytes) | Err(error: Error)

  datatype Markers = Markers(begin: bytes, end: bytes)

  const EDITIONS := Markers(BEGIN_MARKER, END_MARKER)

  /** All that the laws need to know of a pair of markers. */
  ghost predicate Proper(m: Markers) {
    && m.begin != [] && m.end != []
    && (forall i :: 0 <= i < |m.end| ==> m.end[i] != LF)
    && (forall i :: 1 <= i < |m.begin| ==> m.begin[i] != m.end[0])
    && exists k :: 0 <= k < |m.begin| && k < |m.end| && m.begin[k] != m.end[k]
  }

  function Replace(m: Markers, doc: bytes, inner: bytes): Result {
    var bi, ei := Index(doc, m.begin), Index(doc, m.end);
    if bi < 0 then Err(BeginMissing)
    else if ei < 0 then Err(EndMissing)
    else if ei < bi then Err(EndBeforeBegin)
    else Ok(doc[..bi] + m.begin + [LF, LF] + inner + [LF] + doc[ei..])
  }

  /** The text between the markers. (By EndIsPastBegin the last test never fails for proper markers.) */
  function Between(m: Markers, doc: bytes): Option<bytes> {
    var bi, ei := Index(doc, m.begin), Index(doc, m.end);
    if bi < 0 || ei < 0 || ei < bi || ei < bi + |m.begin| then None else Some(doc[bi + |m.begin|..ei])
  }

  function Extract(m: Markers, doc: bytes): Option<bytes> {
    match Between(m, doc)
    case None => None
    case Some(block) => Some(TrimSpace(block))
  }

  lemma EndMarkerIsOneLine(i: nat)
    requires i < |END_MARKER|
    ensures END_MARKER[i] != LF
  {
  }

  lemma BeginMarkerOpensOnce(i: nat)
    requires 1 <= i < |BEGIN_MARKER|
    ensures BEGIN_MARKER[i] != END_MARKER[0]
  {
  }

  lemma EditionsMarkersProper()
    ensures Proper(EDITIONS) && VisibleEnds(EDITIONS)
  {
    forall i | 0 <= i < |END_MARKER| ensures END_MARKER[i] != LF { EndMarkerIsOneLine(i); }
    forall i | 1 <= i < |BEGIN_MARKER| ensures BEGIN_MARKER[i] != END_MARKER[0] { BeginMarkerOpensOnce(i); }
    assert BEGIN_MARKER[5] != END_MARKER[5];
  }

  lemma OccursBytes(s: bytes, sub: bytes, i: int)
    ensures OccursAt(s, sub, i) ==> forall j :: 0 <= j < |sub| ==> s[i + j] == sub[j]
  {
  }

  /** No end marker starts inside a begin marker. */
  lemma NoEndInsideBegin(m: Markers, doc: bytes, bi: int, i: int)
    requires Proper(m) && OccursAt(doc, m.begin, bi) && bi <= i < bi + |m.begin|
    ensures !OccursAt(doc, m.end, i)
  {
    OccursBytes(doc, m.begin, bi);
    OccursBytes(doc, m.end, i);
    assert doc[i] == doc[bi + (i - bi)] == m.begin[i - bi];
  }

  lemma EndIsPastBegin(m: Markers, doc: bytes, bi: int, ei: int)
    requires Proper(m) && OccursAt(doc, m.begin, bi) && OccursAt(doc, m.end, ei) && bi <= ei
    ensures bi + |m.begin| <= ei
  {
    forall i | bi <= i < bi + |m.begin| ensures !OccursAt(doc, m.end, i) { NoEndInsideBegin(m, doc, bi, i); }
  }

  /** The markers, letter by letter. */
  lemma BeginMarkerText()
    ensures |BEGIN_MARKER| == 40 && forall i :: 0 <= i < 40 ==> BEGIN_MARKER[i] as char == "<!-- BEGIN GENERATED editions-matrix -->"[i]
  {
  }

  lemma EndMarkerText()
    ensures |END_MARKER| == 38 && forall i :: 0 <= i < 38 ==> END_MARKER[i] as char == "<!-- END GENERATED editions-matrix -->"[i]
  {
  }

  ghost predicate Occurs(s: bytes, sub: bytes) {
    exists i :: OccursAt(s, sub, i)
  }

  ghost predicate OccursBefore(s: bytes, sub: bytes, other: bytes) {
    exists i :: OccursAt(s, sub, i) && forall j :: OccursAt(s, other, j) ==> i < j
  }

  /** Which pages are refused and why: a marker is missing, the begin marker first, or an end marker comes before every begin marker. */
  lemma ReplaceRefuses(m: Markers, doc: bytes, inner: bytes)
    ensures Replace(m, doc, inner) == Err(BeginMissing) <==> !Occurs(doc, m.begin)
    ensures Replace(m, doc, inner) == Err(EndMissing) <==> Occurs(doc, m.begin) && !Occurs(doc, m.end)
    ensures Replace(m, doc, inner) == Err(EndBeforeBegin) <==>
              Occurs(doc, m.begin) && Occurs(doc, m.end) && OccursBefore(doc, m.end, m.begin)
  {
    var bi, ei := Index(doc, m.begin), Index(doc, m.end);
    if bi >= 0 { assert OccursAt(doc, m.begin, bi); }
    if ei >= 0 { assert OccursAt(doc, m.end, ei); }
  }

  /** A block is found exactly on the pages that can be replaced. */
  lemma ExtractsIff(m: Markers, doc: bytes, inner: bytes)
    requires Proper(m)
    ensures Extract(m, doc).Some? <==> Replace(m, doc, inner).Ok?
  {
    var bi, ei := Index(doc, m.begin), Index(doc, m.end);
    if 0 <= bi <= ei { EndIsPastBegin(m, doc, bi, ei); }
  }

  // ---- Where the markers are in a rewritten page ----

  /** The page around the block: everything before the begin marker, and everything from the end marker on. */
  datatype Around = Around(before: bytes, from: bytes)

  function Rebuilt(m: Markers, a: Around, inner: bytes): bytes {
    a.before + m.begin + [LF, LF] + inner + [LF] + a.from
  }

  /** A page whose first begin marker follows `before`, and which has no end marker up to that point. */
  ghost predicate Framed(m: Markers, a: Around) {
    && Proper(m)
    && m.end <= a.from
    && (forall i :: OccursAt(a.before + m.begin, m.begin, i) ==> i == |a.before|)
    && (forall i :: !OccursAt(a.before + m.begin, m.end, i))
  }

  lemma OccursInPrefix(s: bytes, t: bytes, sub: bytes, i: int)
    requires i + |sub| <= |s|
    ensures OccursAt(s + t, sub, i) <==> OccursAt(s, sub, i)
  {
  }

  lemma OccursInSuffix(s: bytes, t: bytes, sub: bytes, i: int)
    requires |s| <= i
    ensures OccursAt(s + t, sub, i) <==> OccursAt(t, sub, i - |s|)
  {
  }

  /** A text without line feeds does not occur across a line feed. */
  lemma NotAcrossLF(s: bytes, sub: bytes, i: int, p: int)
    requires OccursAt(s, sub, i) && 0 <= p < |s| && s[p] == LF
    requires forall j :: 0 <= j < |sub| ==> sub[j] != LF
    ensures p < i || i + |sub| <= p
  {
  }

  lemma HeadAndRest(doc: bytes, sub: bytes, i: nat)
    requires OccursAt(doc, sub, i)
    ensures var head := doc[..i] + sub;
            |head| == i + |sub| <= |doc| && doc == head + doc[|head|..]
  {
    var n := i + |sub|;
    assert doc[..n] == doc[..i] + doc[i..n];
    assert doc == doc[..n] + doc[n..];
  }

  lemma OneBeginInHead(m: Markers, doc: bytes, i: int)
    requires Index(doc, m.begin) >= 0 && OccursAt(doc[..Index(doc, m.begin)] + m.begin, m.begin, i)
    ensures i == Index(doc, m.begin)
  {
    var bi := Index(doc, m.begin);
    var head := doc[..bi] + m.begin;
    HeadAndRest(doc, m.begin, bi);
    OccursInPrefix(head, doc[|head|..], m.begin, i);
  }

  lemma NoEndInHead(m: Markers, doc: bytes, i: int)
    requires Proper(m) && 0 <= Index(doc, m.begin) <= Index(doc, m.end)
    ensures !OccursAt(doc[..Index(doc, m.begin)] + m.begin, m.end, i)
  {
    var bi, ei := Index(doc, m.begin), Index(doc, m.end);
    var head := doc[..bi] + m.begin;
    EndIsPastBegin(m, doc, bi, ei);
    HeadAndRest(doc, m.begin, bi);
    if i + |m.end| <= |head| { OccursInPrefix(head, doc[|head|..], m.end, i); }
  }

  /** A page that can be replaced is a framed page, and replacing rebuilds it around the new text. */
  lemma ReplaceFrames(m: Markers, doc: bytes, inner: bytes) returns (a: Around)
    requires Proper(m) && Replace(m, doc, inner).Ok?
    ensures a == Around(doc[..Index(doc, m.begin)], doc[Index(doc, m.end)..])
    ensures Framed(m, a) && Replace(m, doc, inner) == Ok(Rebuilt(m, a, inner))
  {
    var bi, ei := Index(doc, m.begin), Index(doc, m.end);
    a := Around(doc[..bi], doc[ei..]);
    assert doc[ei..][..|m.end|] == m.end;
    forall i | OccursAt(a.before + m.begin, m.begin, i) ensures i == |a.before| { OneBeginInHead(m, doc, i); }
    forall i ensures !OccursAt(a.before + m.begin, m.end, i) { NoEndInHead(m, doc, i); }
  }

  lemma BeginStaysFirst(m: Markers, a: Around, x: bytes)
    requires Framed(m, a)
    ensures Index(Rebuilt(m, a, x), m.begin) == |a.before|
  {
    var head, tail := a.before + m.begin, [LF, LF] + x + [LF] + a.from;
    var doc := Rebuilt(m, a, x);
    assert doc == head + tail;
    assert head[|a.before|..|a.before| + |m.begin|] == m.begin;
    OccursInPrefix(head, tail, m.begin, |a.before|);
    forall i | OccursAt(doc, m.begin, i) ensures |a.before| <= i {
      if i < |a.before| { OccursInPrefix(head, tail, m.begin, i); }
    }
  }

  /** Every end marker of a rewritten page is inside the new text or after it. */
  lemma EndPlaces(m: Markers, a: Around, x: bytes, i: int)
    requires Framed(m, a)
    ensures OccursAt(Rebuilt(m, a, x), m.end, i) ==>
              var at := |a.before| + |m.begin| + 2;
              OccursAt(x, m.end, i - at) || i >= at + |x| + 1
  {
    var head, doc := a.before + m.begin, Rebuilt(m, a, x);
    var at := |head| + 2;
    if OccursAt(doc, m.end, i) {
      assert doc[|head|] == LF && doc[|head| + 1] == LF && doc[at + |x|] == LF;
      NotAcrossLF(doc, m.end, i, |head|);
      NotAcrossLF(doc, m.end, i, |head| + 1);
      NotAcrossLF(doc, m.end, i, at + |x|);
      if i + |m.end| <= |head| {
        assert doc == head + ([LF, LF] + x + [LF] + a.from);
        OccursInPrefix(head, [LF, LF] + x + [LF] + a.from, m.end, i);
      } else if i < at + |x| {
        assert doc == (head + [LF, LF]) + (x + ([LF] + a.from));
        OccursInSuffix(head + [LF, LF], x + ([LF] + a.from), m.end, i);
        OccursInPrefix(x, [LF] + a.from, m.end, i - at);
      }
    }
  }

  lemma EndIsThere(m: Markers, a: Around, x: bytes)
    requires Framed(m, a)
    ensures OccursAt(Rebuilt(m, a, x), m.end, |a.before| + |m.begin| + |x| + 3)
  {
  }

  lemma EndInsideShows(m: Markers, a: Around, x: bytes, i: int)
    requires OccursAt(x, m.end, i)
    ensures OccursAt(Rebuilt(m, a, x), m.end, |a.before| + |m.begin| + 2 + i)
  {
  }

  /** The first end marker of a rewritten page is the new text's first one if it has one, else its own place. */
  lemma FirstEnd(m: Markers, a: Around, x: bytes)
    requires Framed(m, a)
    ensures Index(Rebuilt(m, a, x), m.end) ==
              |a.before| + |m.begin| + 2 + (if Index(x, m.end) >= 0 then Index(x, m.end) else |x| + 1)
  {
    EndIsThere(m, a, x);
    if Index(x, m.end) >= 0 { EndInsideShows(m, a, x, Index(x, m.end)); }
    forall i ensures OccursAt(Rebuilt(m, a, x), m.end, i) ==>
                       var at := |a.before| + |m.begin| + 2;
                       OccursAt(x, m.end, i - at) || i >= at + |x| + 1
    {
      EndPlaces(m, a, x, i);
    }
  }

  // ---- The laws ----

  /** Everything before the begin marker and from the end marker on survives, whatever the new text is. */
  lemma ReplacePreservesSurroundings(m: Markers, doc: bytes, x: bytes)
    requires Proper(m) && Replace(m, doc, x).Ok?
    ensures var bi, ei := Index(doc, m.begin), Index(doc, m.end);
            var r := Replace(m, doc, x).text;
            && doc[..bi] <= r && |doc[ei..]| <= |r| && r[|r| - |doc[ei..]|..] == doc[ei..]
            && Index(r, m.begin) == bi
  {
    var a := ReplaceFrames(m, doc, x);
    BeginStaysFirst(m, a, x);
  }

  /**
   Replacing with x and then with y is replacing with y, if and only if x does not contain the end
   marker. With y = x this is idempotence.
   */
  lemma ReplaceTwice(m: Markers, doc: bytes, x: bytes, y: bytes)
    requires Proper(m) && Replace(m, doc, x).Ok?
    ensures Replace(m, Replace(m, doc, x).text, y).Ok?
    ensures Replace(m, Replace(m, doc, x).text, y) == Replace(m, doc, y) <==> Index(x, m.end) < 0
  {
    var a := ReplaceFrames(m, doc, x);
    var from := ReplaceRebuilt(m, a, x, y);
    SameRebuilt(m, a, Around(a.before, from), y);
  }

  /** A second replacement finds the same begin marker, and the first end marker of what was written. */
  lemma ReplaceRebuilt(m: Markers, a: Around, x: bytes, y: bytes) returns (from: bytes)
    requires Framed(m, a)
    ensures Replace(m, Rebuilt(m, a, x), y) == Ok(Rebuilt(m, Around(a.before, from), y))
    ensures from == a.from <==> Index(x, m.end) < 0
  {
    var d := Rebuilt(m, a, x);
    BeginStaysFirst(m, a, x);
    FirstEnd(m, a, x);
    from := d[Index(d, m.end)..];
    assert d[..|a.before|] == a.before;
    assert d[|d| - |a.from|..] == a.from;
  }

  lemma SameRebuilt(m: Markers, a: Around, b: Around, y: bytes)
    requires a.before == b.before
    ensures Rebuilt(m, a, y) == Rebuilt(m, b, y) <==> a.from == b.from
  {
    SameHead(a.before + m.begin + [LF, LF] + y + [LF], a.from, b.from);
  }

  /** Replacing a block with the text it already holds changes nothing. */
  lemma ReplaceWithSame(m: Markers, doc: bytes, x: bytes)
    requires Proper(m) && Replace(m, doc, x).Ok?
    requires Index(doc, m.begin) + |m.begin| <= Index(doc, m.end)
    requires doc[Index(doc, m.begin) + |m.begin|..Index(doc, m.end)] == [LF, LF] + x + [LF]
    ensures Replace(m, doc, x) == Ok(doc)
  {
    var bi, ei := Index(doc, m.begin), Index(doc, m.end);
    Pieces(doc, bi, bi + |m.begin|, ei);
    var a := Around(doc[..bi], doc[ei..]);
    BlockAsOne(m, a, x);
  }

  lemma BlockAsOne(m: Markers, a: Around, x: bytes)
    ensures Rebuilt(m, a, x) == a.before + m.begin + ([LF, LF] + x + [LF]) + a.from
  {
  }

  lemma Pieces(s: bytes, i: nat, j: nat, k: nat)
    requires i <= j <= k <= |s|
    ensures s == s[..i] + s[i..j] + s[j..k] + s[k..]
  {
  }

  // ---- Reading back ----

  lemma FrontBeforeLF(x: bytes)
    requires x != []
    ensures SpaceAtFront(x + [LF]) == SpaceAtFront(x)
  {
    var t := x + [LF];
    assert t[0] == x[0] && (|x| >= 2 ==> t[1] == x[1]) && (|x| >= 3 ==> t[2] == x[2]);
    assert |x| == 1 ==> t[1] == LF;
    assert |x| == 2 ==> t[2] == LF;
  }

  lemma {:induction false} LeadingBeforeLF(x: bytes)
    ensures LeadingSpace(x + [LF]) == if LeadingSpace(x) == |x| then |x| + 1 else LeadingSpace(x)
    decreases |x|
  {
    var n := SpaceAtFront(x);
    if x == [] {
      LeadingOfLF();
      assert x + [LF] == [LF];
    } else {
      FrontBeforeLF(x);
      if n > 0 {
        LeadingBeforeLF(x[n..]);
        assert (x + [LF])[n..] == x[n..] + [LF];
      }
    }
  }

  lemma LeadingOfLF()
    ensures LeadingSpace([LF]) == 1
  {
    LeadingStep([LF], 1);
  }

  lemma TrimLeftLF(s: bytes)
    ensures TrimLeft([LF] + s) == TrimLeft(s)
  {
    LeadingStep([LF] + s, 1);
    assert ([LF] + s)[1..] == s;
  }

  lemma TrimRightLF(s: bytes)
    ensures TrimRight(s + [LF]) == TrimRight(s)
  {
    TrailingStep(s + [LF], 1);
    assert (s + [LF])[..|s|] == s;
  }

  lemma TrimLineEnd(x: bytes)
    ensures TrimSpace(x + [LF]) == TrimSpace(x)
  {
    var n := LeadingSpace(x);
    LeadingBeforeLF(x);
    if n < |x| {
      assert (x + [LF])[n..] == x[n..] + [LF];
      TrimRightLF(x[n..]);
    } else {
      assert (x + [LF])[n + 1..] == [] && x[n..] == [];
    }
  }

  lemma TwoLineFeeds(x: bytes)
    ensures [LF, LF] + x == [LF] + ([LF] + x)
  {
  }

  lemma TrimLeftTwoLF(x: bytes)
    ensures TrimLeft([LF, LF] + x) == TrimLeft(x)
  {
    TwoLineFeeds(x);
    TrimLeftLF([LF] + x);
    TrimLeftLF(x);
  }

  lemma TrimBlockStart(x: bytes)
    ensures TrimSpace([LF, LF] + x) == TrimSpace(x)
  {
    TrimLeftTwoLF(x);
  }

  lemma TrimBlock(x: bytes)
    ensures TrimSpace([LF, LF] + x + [LF]) == TrimSpace(x)
  {
    assert [LF, LF] + x + [LF] == [LF, LF] + (x + [LF]);
    TrimBlockStart(x + [LF]);
    TrimLineEnd(x);
  }

  lemma BlockText(m: Markers, a: Around, x: bytes)
    ensures Rebuilt(m, a, x)[|a.before| + |m.begin|..|a.before| + |m.begin| + |x| + 3] == [LF, LF] + x + [LF]
  {
  }

  /** As much of x as stands before its first end marker. */
  function BeforeEnd(m: Markers, x: bytes): bytes {
    if Index(x, m.end) < 0 then x else x[..Index(x, m.end)]
  }

  lemma BetweenAt(m: Markers, a: Around, x: bytes, k: int)
    requires k < |x| && Index(Rebuilt(m, a, x), m.begin) == |a.before|
    requires Index(Rebuilt(m, a, x), m.end) == |a.before| + |m.begin| + 2 + (if k >= 0 then k else |x| + 1)
    ensures Between(m, Rebuilt(m, a, x)) == Some(if k < 0 then [LF, LF] + x + [LF] else [LF, LF] + x[..k])
  {
    if k < 0 {
      BlockText(m, a, x);
    } else {
      BlockStart(m, a, x, k);
    }
  }

  /** What the markers of a rewritten page enclose. */
  lemma BetweenRebuilt(m: Markers, a: Around, x: bytes)
    requires Framed(m, a)
    ensures Between(m, Rebuilt(m, a, x)) ==
            Some(if Index(x, m.end) < 0 then [LF, LF] + x + [LF] else [LF, LF] + x[..Index(x, m.end)])
  {
    BeginStaysFirst(m, a, x);
    FirstEnd(m, a, x);
    BetweenAt(m, a, x, Index(x, m.end));
  }

  lemma BlockStart(m: Markers, a: Around, x: bytes, k: nat)
    requires k <= |x|
    ensures var start := |a.before| + |m.begin|;
            Rebuilt(m, a, x)[start..start + 2 + k] == [LF, LF] + x[..k]
  {
    assert x == x[..k] + x[k..];
    BlockAsOne(m, a, x);
    assert Rebuilt(m, a, x) == (a.before + m.begin) + ([LF, LF] + x[..k]) + (x[k..] + [LF] + a.from);
  }

  /** For every text, the extractor reads back what stands before its first end marker, without outer white space. */
  lemma ExtractRebuilt(m: Markers, doc: bytes, x: bytes)
    requires Proper(m) && Replace(m, doc, x).Ok?
    ensures Extract(m, Replace(m, doc, x).text) == Some(TrimSpace(BeforeEnd(m, x)))
  {
    var a := ReplaceFrames(m, doc, x);
    BetweenRebuilt(m, a, x);
    if Index(x, m.end) < 0 {
      TrimBlock(x);
    } else {
      TrimBlockStart(x[..Index(x, m.end)]);
    }
  }

  /** White space trimming cannot break into the end marker. */
  predicate VisibleEnds(m: Markers) {
    m.end != [] && Visible(m.end[0]) && Visible(m.end[|m.end| - 1])
  }

  lemma SliceOfSlice(s: bytes, lo: nat, hi: nat, i: nat, n: nat)
    requires lo <= i && i + n <= hi <= |s|
    ensures s[lo..hi][i - lo..i - lo + n] == s[i..i + n]
  {
    var t, from := s[lo..hi], i - lo;
    var left, right := t[from..from + n], s[i..i + n];
    forall k | 0 <= k < n ensures left[k] == right[k] {
      assert t[from + k] == s[i + k];
    }
  }

  lemma OccursInSlice(s: bytes, sub: bytes, lo: nat, hi: nat, i: nat)
    requires lo <= hi <= |s| && lo <= i && i + |sub| <= hi
    ensures OccursAt(s[lo..hi], sub, i - lo) <==> OccursAt(s, sub, i)
  {
    var t := s[lo..hi];
    SliceOfSlice(s, lo, hi, i, |sub|);
    assert t[i - lo..i - lo + |sub|] == s[i..i + |sub|];
  }

  lemma PrefixOfSuffix(s: bytes, lo: nat, n: nat)
    requires lo + n <= |s|
    ensures s[lo..][..n] == s[lo..lo + n]
  {
  }

  /** Where trimming cuts. */
  function TrimEnd(s: bytes): (hi: nat)
    ensures LeadingSpace(s) <= hi <= |s|
  {
    |s| - TrailingSpace(TrimLeft(s))
  }

  lemma {:induction false} TrimIsSlice(s: bytes)
    ensures TrimSpace(s) == s[LeadingSpace(s)..TrimEnd(s)]
  {
    PrefixOfSuffix(s, LeadingSpace(s), TrimEnd(s) - LeadingSpace(s));
  }

  lemma {:induction false} TrimKeeps(s: bytes, i: nat)
    requires i < |s| && Visible(s[i])
    ensures LeadingSpace(s) <= i < TrimEnd(s)
  {
    LeadingStopsAt(s, i);
    EndKeeps(s, LeadingSpace(s), i);
  }

  lemma EndKeeps(s: bytes, lo: nat, i: nat)
    requires lo <= i < |s| && Visible(s[i])
    ensures i < |s| - TrailingSpace(s[lo..])
  {
    TrailingStopsAt(s[lo..], i - lo);
  }

  /** An end marker in x is in x without its outer white space too. */
  lemma {:induction false} MarkerSurvivesTrim(m: Markers, x: bytes, i: int)
    requires VisibleEnds(m) && OccursAt(x, m.end, i)
    ensures OccursAt(TrimSpace(x), m.end, i - LeadingSpace(x))
  {
    var last := |m.end| - 1;
    OccursBytes(x, m.end, i);
    assert x[i + 0] == m.end[0] && x[i + last] == m.end[last];
    TrimKeeps(x, i);
    TrimKeeps(x, i + last);
    TrimIsSlice(x);
    OccursInSlice(x, m.end, LeadingSpace(x), TrimEnd(x), i);
  }

  lemma {:induction false} TrimAddsNothing(s: bytes, sub: bytes, i: int)
    requires OccursAt(TrimSpace(s), sub, i)
    ensures OccursAt(s, sub, i + LeadingSpace(s))
  {
    TrimIsSlice(s);
    OccursInSlice(s, sub, LeadingSpace(s), TrimEnd(s), i + LeadingSpace(s));
  }

  lemma OccursInFront(x: bytes, sub: bytes, k: nat, i: int)
    requires k <= |x| && OccursAt(x[..k], sub, i)
    ensures OccursAt(x, sub, i)
  {
    assert x == x[..k] + x[k..];
    OccursInPrefix(x[..k], x[k..], sub, i);
  }

  lemma TrimTellsMarker(m: Markers, x: bytes)
    requires VisibleEnds(m) && Index(x, m.end) >= 0
    ensures TrimSpace(x[..Index(x, m.end)]) != TrimSpace(x)
  {
    var k := Index(x, m.end);
    MarkerSurvivesTrim(m, x, k);
    if TrimSpace(x[..k]) == TrimSpace(x) {
      OccursOutside(x, m.end, k, k - LeadingSpace(x));
    }
  }

  /** What occurs in the trimmed front part of x occurs in x, wholly before its end. */
  lemma OccursOutside(x: bytes, sub: bytes, k: nat, i: int)
    requires k <= |x| && OccursAt(TrimSpace(x[..k]), sub, i)
    ensures exists j :: j + |sub| <= k && OccursAt(x, sub, j)
  {
    TrimAddsNothing(x[..k], sub, i);
    OccursInFront(x, sub, k, i + LeadingSpace(x[..k]));
  }

  /** What was written is what the extractor reads, up to outer white space, iff it does not contain the end marker. */
  lemma ExtractAfterReplace(m: Markers, doc: bytes, x: bytes)
    requires Proper(m) && VisibleEnds(m) && Replace(m, doc, x).Ok?
    ensures Extract(m, Replace(m, doc, x).text) == Some(TrimSpace(x)) <==> Index(x, m.end) < 0
  {
    ExtractRebuilt(m, doc, x);
    if Index(x, m.end) >= 0 {
      TrimTellsMarker(m, x);
    }
  }

  /** A page of the two markers and nothing else can be replaced. */
  lemma EmptyBlock(m: Markers, x: bytes)
    requires Proper(m)
    ensures Replace(m, m.begin + m.end, x).Ok?
  {
    var doc := m.begin + m.end;
    assert doc[0..|m.begin|] == m.begin && doc[|m.begin|..|m.begin| + |m.end|] == m.end;
    assert OccursAt(doc, m.begin, 0) && OccursAt(doc, m.end, |m.begin|);
  }

  /**
   Writing the end marker itself into the empty block of the editions page: it is not read back, and
   replacing it again does not give what replacing at once would.
   */
  lemma EndMarkerAsText(y: bytes)
    ensures var doc, x := BEGIN_MARKER + END_MARKER, END_MARKER;
            && Replace(EDITIONS, doc, x).Ok?
            && Extract(EDITIONS, Replace(EDITIONS, doc, x).text) != Some(TrimSpace(x))
            && Replace(EDITIONS, Replace(EDITIONS, doc, x).text, y) != Replace(EDITIONS, doc, y)
  {
    EditionsMarkersProper();
    MarkerAsText(EDITIONS, y);
  }

  lemma MarkerAsText(m: Markers, y: bytes)
    requires Proper(m) && VisibleEnds(m)
    ensures var doc := m.begin + m.end;
            && Replace(m, doc, m.end).Ok?
            && Extract(m, Replace(m, doc, m.end).text) != Some(TrimSpace(m.end))
            && Replace(m, Replace(m, doc, m.end).text, y) != Replace(m, doc, y)
  {
    EmptyBlock(m, m.end);
    assert m.end[0..|m.end|] == m.end;
    assert OccursAt(m.end, m.end, 0);
    ExtractAfterReplace(m, m.begin + m.end, m.end);
    ReplaceTwice(m, m.begin + m.end, m.end, y);
  }
}
