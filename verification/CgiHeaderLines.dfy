/**
 The rest of what the CGI parser does with header lines: which responses it refuses, which numbers it
 reads, which names it takes for one another, and what it does not care about.
 */
module CgiHeaderLines {
  import opened Options
  import opened Bytes
  import opened CgiResponse

  // ---- Responses that are refused ----

  lemma {:induction false} TextsMore(fs: seq<HeaderField>, more: seq<bytes>)
    requires fs != []
    ensures Texts(fs) + more != [] && (Texts(fs) + more)[0] == PrintField(fs[0])
    ensures (Texts(fs) + more)[1..] == Texts(fs[1..]) + more
  {
    ConsAppend(PrintField(fs[0]), Texts(fs[1..]), more);
  }

  lemma ConsAppend<T>(x: T, a: seq<T>, b: seq<T>)
    ensures ([x] + a) + b != [] && (([x] + a) + b)[0] == x && (([x] + a) + b)[1..] == a + b
  {
  }

  lemma {:induction false} HeaderLinesStep(acc: Head, lines: seq<bytes>)
    requires lines != [] && HeaderLine(acc, lines[0]).Good?
    ensures HeaderLines(acc, lines) == HeaderLines(HeaderLine(acc, lines[0]).head, lines[1..])
  {
  }

  lemma {:induction false} HeaderLinesAfter(acc: Head, fs: seq<HeaderField>, more: seq<bytes>)
    requires forall i :: 0 <= i < |fs| ==> WellFormed(fs[i])
    ensures HeaderLines(acc, Texts(fs) + more) == HeaderLines(ExpectAll(acc, fs), more)
    decreases |fs|
  {
    if fs == [] {
      assert Texts(fs) + more == more;
    } else {
      HeaderLineOfField(acc, fs[0]);
      TextsMore(fs, more);
      HeaderLinesStep(acc, Texts(fs) + more);
      HeaderLinesAfter(Expect(acc, fs[0]), fs[1..], more);
    }
  }

  /** A header block of these lines, with CRLF line ends, and a body behind it. */
  function PrintLines(lines: seq<bytes>, body: bytes): bytes {
    CrlfLines(lines) + CRLF + body
  }

  lemma {:induction false} ParseOfLines(lines: seq<bytes>, body: bytes)
    requires lines != [] && AllPlain(lines)
    ensures var head := HeaderLines(Head(STATUS_OK, map[]), lines);
            Parse(PrintLines(lines, body)) == if head.Bad? then head.error else Parsed(head.head.status, head.head.headers, body)
  {
    var j := Join(lines);
    CrlfLinesIsJoin(lines);
    assert PrintLines(lines, body) == j + BLANK_LINE + body;
    JoinHasNoBlank(lines);
    BlankLineFound(j, body);
    LinesOfJoin(lines);
    var raw := j + BLANK_LINE + body;
    assert raw[..|j|] == j && raw[|j| + 4..] == body;
  }

  lemma {:induction false} HeaderLinesFail(acc: Head, line: bytes, rest: seq<bytes>, error: Result)
    requires HeaderLine(acc, line) == Bad(error)
    ensures HeaderLines(acc, [line] + rest) == Bad(error)
  {
  }

  lemma {:induction false} AllPlainLines(fs: seq<HeaderField>, line: bytes, rest: seq<bytes>)
    requires forall i :: 0 <= i < |fs| ==> WellFormed(fs[i])
    requires line != [] && OneLine(line) && AllPlain(rest)
    ensures AllPlain(Texts(fs) + ([line] + rest))
  {
    TextsPlain(fs);
    PlainMore([line], rest);
    PlainMore(Texts(fs), [line] + rest);
  }

  lemma PlainMore(a: seq<bytes>, b: seq<bytes>)
    requires AllPlain(a) && AllPlain(b)
    ensures AllPlain(a + b)
  {
  }

  lemma {:induction false} BadLineStops(fs: seq<HeaderField>, line: bytes, rest: seq<bytes>, body: bytes, error: Result)
    requires forall i :: 0 <= i < |fs| ==> WellFormed(fs[i])
    requires line != [] && OneLine(line) && AllPlain(rest)
    requires HeaderLine(ExpectAll(Head(STATUS_OK, map[]), fs), line) == Bad(error)
    ensures Parse(PrintLines(Texts(fs) + ([line] + rest), body)) == error
  {
    AllPlainLines(fs, line, rest);
    HeaderLinesAfter(Head(STATUS_OK, map[]), fs, [line] + rest);
    HeaderLinesFail(ExpectAll(Head(STATUS_OK, map[]), fs), line, rest, error);
    ParseOfLines(Texts(fs) + ([line] + rest), body);
  }

  /** After well-formed lines, the first line without a colon makes the parse fail with that line, whatever follows. */
  lemma {:induction false} NoColonFails(fs: seq<HeaderField>, line: bytes, rest: seq<bytes>, body: bytes)
    requires forall i :: 0 <= i < |fs| ==> WellFormed(fs[i])
    requires line != [] && OneLine(line) && COLON !in line && AllPlain(rest)
    ensures Parse(PrintLines(Texts(fs) + ([line] + rest), body)) == MalformedLine(line)
  {
    NoCRToTrim(line);
    IndexAbsent(line, COLON);
    BadLineStops(fs, line, rest, body, MalformedLine(line));
  }

  lemma StatusLineSplits(val: bytes)
    requires OneLine(val) && Trimmed(val)
    ensures var line := STATUS_KEY + [COLON, SPACE] + val;
            && OneLine(line) && line != [] && Index(line, [COLON]) == 6
            && TrimSpace(line[..6]) == STATUS_KEY && TrimSpace(line[7..]) == val
  {
    var line := STATUS_KEY + [COLON, SPACE] + val;
    OneLineJoins(STATUS_KEY + [COLON, SPACE], val);
    assert line == STATUS_KEY + [COLON] + ([SPACE] + val);
    IndexAfter(STATUS_KEY, COLON, [SPACE] + val);
    assert line[..6] == STATUS_KEY && line[7..] == [SPACE] + val;
    TrimTrimmed(STATUS_KEY);
    TrimAfterSpace(val);
  }

  lemma BadStatusLine(acc: Head, val: bytes)
    requires OneLine(val) && Trimmed(val) && Atoi(UpToSpace(val)).None?
    ensures HeaderLine(acc, STATUS_KEY + [COLON, SPACE] + val) == Bad(InvalidStatus(val))
  {
    StatusLineSplits(val);
    NoCRToTrim(STATUS_KEY + [COLON, SPACE] + val);
    StatusFolds();
  }

  /** So does a status line whose text up to the first space is no number. */
  lemma {:induction false} BadStatusFails(fs: seq<HeaderField>, val: bytes, rest: seq<bytes>, body: bytes)
    requires forall i :: 0 <= i < |fs| ==> WellFormed(fs[i])
    requires OneLine(val) && Trimmed(val) && Atoi(UpToSpace(val)).None? && AllPlain(rest)
    ensures Parse(PrintLines(Texts(fs) + ([STATUS_KEY + [COLON, SPACE] + val] + rest), body)) == InvalidStatus(val)
  {
    StatusLineSplits(val);
    BadStatusLine(ExpectAll(Head(STATUS_OK, map[]), fs), val);
    BadLineStops(fs, STATUS_KEY + [COLON, SPACE] + val, rest, body, InvalidStatus(val));
  }

  // ---- Numbers, signs and all ----

  lemma {:induction false} DigitsOnly(s: bytes)
    ensures DigitsValue(s).Some? <==> AllDigits(s)
  {
    if s != [] {
      DigitsOnly(s[..|s| - 1]);
      assert s == s[..|s| - 1] + [s[|s| - 1]];
    }
  }

  /** A number is an optional sign and at least one digit, within 64 bits. */
  lemma AtoiIff(s: bytes)
    ensures Atoi(s).Some? <==>
            var digits := if s != [] && (s[0] == 45 || s[0] == 43) then s[1..] else s;
            && digits != [] && AllDigits(digits) && DigitsValue(digits).Some?
            && DigitsValue(digits).value <= (if s[0] == 45 then 0x8000_0000_0000_0000 else 0x7fff_ffff_ffff_ffff)
  {
    DigitsOnly(if s != [] && (s[0] == 45 || s[0] == 43) then s[1..] else s);
  }

  lemma {:induction false} AtoiOfDigits(digits: bytes, n: int)
    requires digits != [] && AllDigits(digits) && 0 <= n <= 0x7fff_ffff_ffff_ffff && DigitsValue(digits) == Some(n)
    ensures Atoi(digits) == Some(n) && Atoi([43] + digits) == Some(n) && Atoi([45] + digits) == Some(-n)
  {
    assert ([43] + digits)[1..] == digits && ([45] + digits)[1..] == digits;
  }

  /** The decimal digits of n, without a sign or with one. */
  lemma AtoiSigned(n: int)
    requires 0 <= n <= 0x7fff_ffff_ffff_ffff
    ensures Atoi(Decimal(n)) == Some(n) && Atoi([43] + Decimal(n)) == Some(n) && Atoi([45] + Decimal(n)) == Some(-n)
  {
    DecimalDigits(n);
    AtoiOfDigits(Decimal(n), n);
  }

  // ---- Header names ----

  predicate SameLetter(a: byte, b: byte) {
    a == b || (97 <= a <= 122 && b == a - 32) || (97 <= b <= 122 && a == b - 32)
  }

  /** The names differ in the case of ASCII letters only. */
  predicate SameName(a: bytes, b: bytes) {
    |a| == |b| && forall i :: 0 <= i < |a| ==> SameLetter(a[i], b[i])
  }

  lemma {:induction false} CanonicalFromIff(a: bytes, b: bytes, upper: bool)
    ensures CanonicalFrom(a, upper) == CanonicalFrom(b, upper) <==> SameName(a, b)
  {
    if a != [] && b != [] {
      var x := if upper then UpperByte(a[0]) else LowerByte(a[0]);
      var y := if upper then UpperByte(b[0]) else LowerByte(b[0]);
      var u, v := CanonicalFrom(a[1..], a[0] == 45), CanonicalFrom(b[1..], b[0] == 45);
      SameFirst(x, u, y, v);
      assert x == y <==> SameLetter(a[0], b[0]);
      assert SameName(a, b) <==> SameLetter(a[0], b[0]) && SameName(a[1..], b[1..]) by { SameNameStep(a, b); }
      if SameLetter(a[0], b[0]) {
        CanonicalFromIff(a[1..], b[1..], a[0] == 45);
      }
    }
  }

  lemma SameFirst(x: byte, u: bytes, y: byte, v: bytes)
    ensures [x] + u == [y] + v <==> x == y && u == v
  {
    assert ([x] + u)[0] == x && ([y] + v)[0] == y && ([x] + u)[1..] == u && ([y] + v)[1..] == v;
  }

  lemma SameNameStep(a: bytes, b: bytes)
    requires a != [] && b != []
    ensures SameName(a, b) <==> SameLetter(a[0], b[0]) && SameName(a[1..], b[1..])
  {
    if SameLetter(a[0], b[0]) && SameName(a[1..], b[1..]) {
      forall i | 0 <= i < |a| ensures SameLetter(a[i], b[i]) {
        if i > 0 { assert a[i] == a[1..][i - 1] && b[i] == b[1..][i - 1]; }
      }
    }
    if SameName(a, b) {
      forall i | 0 <= i < |a| - 1 ensures SameLetter(a[1..][i], b[1..][i]) { assert SameLetter(a[i + 1], b[i + 1]); }
    }
  }

  predicate IsToken(key: bytes) {
    forall i :: 0 <= i < |key| ==> IsTokenByte(key[i])
  }

  /** The bytes of a token are the visible ASCII characters but the delimiters of section 5.6.2 of RFC 9110. */
  lemma TokenBytes(b: byte)
    ensures IsTokenByte(b) <==>
            33 <= b <= 126 && b !in {34, 40, 41, 44, 47, 58, 59, 60, 61, 62, 63, 64, 91, 92, 93, 123, 125}
  {
  }

  /** Two names go under one header key exactly if they differ in case only. */
  lemma SameHeaderIff(a: bytes, b: bytes)
    requires IsToken(a) && IsToken(b)
    ensures CanonicalKey(a) == CanonicalKey(b) <==> SameName(a, b)
  {
    CanonicalFromIff(a, b, true);
  }

  lemma {:induction false} CanonicalFromAt(s: bytes, upper: bool, i: nat)
    requires i < |s|
    ensures var c := CanonicalFrom(s, upper);
            && |c| == |s| && SameLetter(c[i], s[i])
            && (if (if i == 0 then upper else s[i - 1] == 45) then !(97 <= c[i] <= 122) else !(65 <= c[i] <= 90))
  {
    if i > 0 {
      CanonicalFromAt(s[1..], s[0] == 45, i - 1);
    } else if |s| > 1 {
      CanonicalFromAt(s[1..], s[0] == 45, 0);
    }
  }

  /** A header key has the letters of its name, upper case at the start and after a hyphen, lower case elsewhere. */
  lemma HeaderKeyShape(name: bytes, i: nat)
    requires i < |name|
    ensures var key := CanonicalKey(name);
            && |key| == |name| && (!IsToken(name) ==> key == name)
            && (IsToken(name) ==> SameLetter(key[i], name[i]))
            && (IsToken(name) && (i == 0 || name[i - 1] == 45) ==> !(97 <= key[i] <= 122))
            && (IsToken(name) && i > 0 && name[i - 1] != 45 ==> !(65 <= key[i] <= 90))
  {
    CanonicalFromAt(name, true, i);
  }

  lemma {:induction false} FoldsIff(s: bytes, word: bytes)
    requires 0xC5 !in s && forall i :: 0 <= i < |word| ==> 97 <= word[i] <= 122
    ensures FoldsTo(s, word) <==> SameName(s, word)
    decreases |word|
  {
    if s != [] && word != [] {
      SameNameStep(s, word);
      FoldsIff(s[1..], word[1..]);
    }
  }

  /** The long s, C5 BF in UTF-8, is taken for an s, and for no other letter. */
  lemma {:induction false} LongS(rest: bytes, c: byte, word: bytes)
    requires 97 <= c <= 122
    ensures FoldsTo([0xC5, 0xBF] + rest, [c] + word) <==> c == 115 && FoldsTo(rest, word)
  {
    assert ([0xC5, 0xBF] + rest)[..2] == [0xC5, 0xBF] && ([0xC5, 0xBF] + rest)[2..] == rest;
    assert ([c] + word)[1..] == word;
  }

  /** The status line is recognised in any case, and no other ASCII name is taken for it. */
  lemma {:induction false} StatusInAnyCase(key: bytes)
    requires 0xC5 !in key
    ensures FoldsTo(key, STATUS_FOLDED) <==> SameName(key, STATUS_KEY)
  {
    FoldsIff(key, STATUS_FOLDED);
  }

  // ---- Lines as they come ----

  /** CRs at the end of a line are dropped, empty lines are skipped, and white space around name and value does not matter. */
  lemma LinesAsTheyCome(acc: Head, line: bytes)
    ensures HeaderLine(acc, line + [CR]) == HeaderLine(acc, line)
    ensures HeaderLine(acc, []) == Good(acc)
  {
    TrimOneMore(line);
  }

  lemma {:induction false} TrimOneMore(line: bytes)
    ensures TrimRightCR(line + [CR]) == TrimRightCR(line)
  {
    assert (line + [CR])[..|line|] == line;
  }

  lemma SpacesDoNotMatter(acc: Head, f: HeaderField, a: bytes, b: bytes, c: bytes, d: bytes)
    requires WellFormed(f) && KeyOf(f) != [] && ValOf(f) != []
    requires AsciiSpaces(a) && AsciiSpaces(b) && AsciiSpaces(c) && AsciiSpaces(d)
    requires OneLine(a) && OneLine(b) && OneLine(c) && OneLine(d)
    ensures HeaderLine(acc, (a + KeyOf(f) + b) + [COLON] + (c + ValOf(f) + d)) == Good(Expect(acc, f))
  {
    var left, right := a + KeyOf(f) + b, c + ValOf(f) + d;
    var line := left + [COLON] + right;
    ValueIsPlain(f);
    OneLineJoins(a, KeyOf(f));
    OneLineJoins(a + KeyOf(f), b);
    OneLineJoins(c, ValOf(f));
    OneLineJoins(c + ValOf(f), d);
    OneLineJoins(left, [COLON]);
    OneLineJoins(left + [COLON], right);
    NoCRToTrim(line);
    IndexAfter(left, COLON, right);
    assert line[..|left|] == left && line[|left| + 1..] == right;
    TrimAround(a, KeyOf(f), b);
    TrimAround(c, ValOf(f), d);
    if f.Status? {
      StatusTextCode(f.code, f.reason);
      StatusFolds();
    }
  }

  lemma NoBlankLineAnywhere(j: bytes, i: int)
    requires NoBlankLf(j)
    ensures !OccursAt(j, BLANK_LINE, i) && !OccursAt(j, [LF, LF], i)
  {
    StartsWithCR(j, i);
    if 0 <= i && i + 2 <= |j| {
      var at := j[i..i + 2];
      assert at[0] == j[i] && at[1] == j[i + 1];
    }
  }

  lemma NoSeparator(j: bytes)
    requires NoBlankLf(j)
    ensures Separator(j) == (|j|, |j|)
  {
    forall i ensures !OccursAt(j, BLANK_LINE, i) && !OccursAt(j, [LF, LF], i) { NoBlankLineAnywhere(j, i); }
  }

  /** Without any blank line everything is header, and the body is empty. */
  lemma {:induction false} HeadersOnly(fs: seq<HeaderField>, k: bytes)
    requires fs != [] && forall i :: 0 <= i < |fs| ==> WellFormed(fs[i])
    ensures Recovers(Parse(JoinLf(Texts(fs))), fs, [], k)
  {
    var raw := JoinLf(Texts(fs));
    TextsPlain(fs);
    JoinLfHasNoBlank(Texts(fs));
    NoSeparator(raw);
    LinesOfJoinLf(Texts(fs));
    WholeIsHead(fs, raw, k);
  }

  lemma {:induction false} WholeIsHead(fs: seq<HeaderField>, raw: bytes, k: bytes)
    requires forall i :: 0 <= i < |fs| ==> WellFormed(fs[i])
    requires Separator(raw) == (|raw|, |raw|) && Lines(raw) == Texts(fs)
    ensures Recovers(Parse(raw), fs, [], k)
  {
    assert raw[..|raw|] == raw && raw[|raw|..] == [];
    ParsedAt(fs, raw, |raw|, |raw|, k);
  }

  lemma EmptyHead(raw: bytes, start: nat)
    requires Separator(raw) == (0, start)
    ensures Parse(raw) == Parsed(200, map[], raw[start..])
  {
    assert raw[..0] == [] && Lines([]) == [];
  }

  /** A response that starts with its blank line has no headers, status 200, and the rest for its body. */
  lemma NoHeaders(body: bytes)
    ensures Parse([13, 10, 13, 10] + body) == Parsed(200, map[], body)
    ensures Index([10, 10] + body, BLANK_LINE) < 0 ==> Parse([10, 10] + body) == Parsed(200, map[], body)
  {
    var crlf, lf := BLANK_LINE + body, [LF, LF] + body;
    assert crlf[0..4] == BLANK_LINE && crlf[4..] == body && lf[0..2] == [LF, LF] && lf[2..] == body;
    assert OccursAt(crlf, BLANK_LINE, 0) && OccursAt(lf, [LF, LF], 0);
    EmptyHead(crlf, 4);
    if Index(lf, BLANK_LINE) < 0 {
      EmptyHead(lf, 2);
    }
  }
}
