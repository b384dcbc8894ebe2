/**
 Parsing the CGI response of git-http-backend (section 6 of RFC 3875): a header
 block, a blank line, an arbitrary body.
 */
module CgiResponse {
  import opened Options
  import opened Bytes

  const COLON: byte := 58
  const CRLF: bytes := [CR, LF]
  const BLANK_LINE: bytes := [CR, LF, CR, LF]
  const STATUS_KEY: bytes := [83, 116, 97, 116, 117, 115]     // "Status"
  const STATUS_FOLDED: bytes := [115, 116, 97, 116, 117, 115] // "status"
  const MAX_INT := 0x7fff_ffff_ffff_ffff
  const STATUS_OK := 200

  type Headers = map<bytes, seq<bytes>>

  datatype Result =
    | Parsed(status: int, headers: Headers, body: bytes)
    | MalformedLine(line: bytes)
    | InvalidStatus(value: bytes)

  datatype Head = Head(status: int, headers: Headers)
  datatype HeadResult = Good(head: Head) | Bad(error: Result)

  // ---- Pieces of the parser ----

  function LowerByte(b: byte): byte {
    if 65 <= b <= 90 then b + 32 else b
  }

  function UpperByte(b: byte): byte {
    if 97 <= b <= 122 then b - 32 else b
  }

  /** strings.EqualFold(s, "Status"): the letter s also folds with U+017F, C5 BF in UTF-8. */
  predicate FoldsTo(s: bytes, pattern: bytes)
    decreases |pattern|
  {
    if pattern == [] then s == []
    else if s == [] then false
    else if LowerByte(s[0]) == pattern[0] then FoldsTo(s[1..], pattern[1..])
    else pattern[0] == 115 && |s| >= 2 && s[..2] == [0xC5, 0xBF] && FoldsTo(s[2..], pattern[1..])
  }

  predicate IsTokenByte(b: byte) {
    || 48 <= b <= 57 || 65 <= b <= 90 || 94 <= b <= 122
    || b == 33 || 35 <= b <= 39 || b == 42 || b == 43 || b == 45 || b == 46 || b == 124 || b == 126
  }

  /** Canonical header keys: letters after the start and after a hyphen upper case, the others lower case. */
  function CanonicalFrom(s: bytes, upper: bool): bytes {
    if s == [] then [] else [if upper then UpperByte(s[0]) else LowerByte(s[0])] + CanonicalFrom(s[1..], s[0] == 45)
  }

  function CanonicalKey(key: bytes): bytes {
    if forall i :: 0 <= i < |key| ==> IsTokenByte(key[i]) then CanonicalFrom(key, true) else key
  }

  function Add(h: Headers, key: bytes, val: bytes): Headers {
    var k := CanonicalKey(key);
    h[k := (if k in h then h[k] else []) + [val]]
  }

  function DropCR(line: bytes): bytes {
    if line != [] && line[|line| - 1] == CR then line[..|line| - 1] else line
  }

  function TrimRightCR(line: bytes): bytes {
    if line != [] && line[|line| - 1] == CR then TrimRightCR(line[..|line| - 1]) else line
  }

  /** The lines of a bufio.Scanner, without its length limit. */
  function Lines(h: bytes): seq<bytes>
    decreases |h|
  {
    if h == [] then []
    else
      var i := Index(h, [LF]);
      if i < 0 then [DropCR(h)] else [DropCR(h[..i])] + Lines(h[i + 1..])
  }

  function DigitsValue(s: bytes): (r: Option<nat>) {
    if s == [] then Some(0)
    else
      var b := s[|s| - 1];
      var front := DigitsValue(s[..|s| - 1]);
      if front.None? || !(48 <= b <= 57) then None else Some(front.value * 10 + (b as int - 48))
  }

  function Atoi(s: bytes): Option<int> {
    var negative := s != [] && s[0] == 45;
    var digits := if s != [] && (s[0] == 45 || s[0] == 43) then s[1..] else s;
    if digits == [] || DigitsValue(digits).None? then None
    else
      var v: int := DigitsValue(digits).value;
      var n := if negative then -v else v;
      if -MAX_INT - 1 <= n <= MAX_INT then Some(n) else None
  }

  function UpToSpace(s: bytes): bytes {
    var i := Index(s, [SPACE]);
    if i < 0 then s else s[..i]
  }

  function PlainLine(acc: Head, line: bytes): HeadResult {
    if line == [] then Good(acc)
    else
      var i := Index(line, [COLON]);
      if i < 0 then Bad(MalformedLine(line))
      else
        var key, val := TrimSpace(line[..i]), TrimSpace(line[i + 1..]);
        if FoldsTo(key, STATUS_FOLDED) then
          var code := Atoi(UpToSpace(val));
          if code.None? then Bad(InvalidStatus(val)) else Good(acc.(status := code.value))
        else Good(acc.(headers := Add(acc.headers, key, val)))
  }

  function HeaderLine(acc: Head, raw: bytes): HeadResult {
    PlainLine(acc, TrimRightCR(raw))
  }

  function HeaderLines(acc: Head, lines: seq<bytes>): HeadResult
    decreases |lines|
  {
    if lines == [] then Good(acc)
    else
      var next := HeaderLine(acc, lines[0]);
      if next.Bad? then next else HeaderLines(next.head, lines[1..])
  }

  /** Where the header block ends and where the body starts. */
  function Separator(raw: bytes): (r: (nat, nat))
    ensures r.0 <= r.1 <= |raw|
  {
    var crlf, lf := Index(raw, BLANK_LINE), Index(raw, [LF, LF]);
    if crlf >= 0 then (crlf, crlf + 4) else if lf >= 0 then (lf, lf + 2) else (|raw|, |raw|)
  }

  function ParseAt(raw: bytes, headerEnd: nat, bodyStart: nat): Result
    requires headerEnd <= |raw| && bodyStart <= |raw|
  {
    var head := HeaderLines(Head(STATUS_OK, map[]), Lines(raw[..headerEnd]));
    if head.Bad? then head.error else Parsed(head.head.status, head.head.headers, raw[bodyStart..])
  }

  function Parse(raw: bytes): Result {
    var cut := Separator(raw);
    ParseAt(raw, cut.0, cut.1)
  }

  method ParseCgiOutput(raw: bytes) returns (r: Result)
    ensures r == Parse(raw)
  {
    var cut := Separator(raw);
    var status, headers := STATUS_OK, map[];
    var rest := Lines(raw[..cut.0]);
    while rest != []
      invariant HeaderLines(Head(status, headers), rest) == HeaderLines(Head(STATUS_OK, map[]), Lines(raw[..cut.0]))
      decreases |rest|
    {
      var line := TrimRightCR(rest[0]);
      if line != [] {
        var i := Index(line, [COLON]);
        if i < 0 {
          return MalformedLine(line);
        }
        var key, val := TrimSpace(line[..i]), TrimSpace(line[i + 1..]);
        if FoldsTo(key, STATUS_FOLDED) {
          var code := Atoi(UpToSpace(val));
          if code.None? {
            return InvalidStatus(val);
          }
          status := code.value;
        } else {
          headers := Add(headers, key, val);
        }
      }
      rest := rest[1..];
    }
    return Parsed(status, headers, raw[cut.1..]);
  }

  // ---- The printer ----

  datatype HeaderField = Field(key: bytes, val: bytes) | Status(code: nat, reason: bytes)

  predicate OneLine(s: bytes) {
    forall i :: 0 <= i < |s| ==> s[i] != CR && s[i] != LF
  }

  /** What section 6.3 of RFC 3875 lets a script send, with the optional white space left out. */
  predicate WellFormed(f: HeaderField) {
    match f
    case Field(key, val) =>
      && OneLine(key) && Trimmed(key) && COLON !in key && !FoldsTo(key, STATUS_FOLDED)
      && OneLine(val) && Trimmed(val)
    case Status(code, reason) => code <= MAX_INT && OneLine(reason) && Trimmed(reason)
  }

  function Decimal(n: nat): bytes {
    (if n < 10 then [] else Decimal(n / 10)) + [(n % 10 + 48) as byte]
  }

  function StatusText(code: nat, reason: bytes): bytes {
    Decimal(code) + if reason == [] then [] else [SPACE] + reason
  }

  function KeyOf(f: HeaderField): bytes {
    if f.Field? then f.key else STATUS_KEY
  }

  function ValOf(f: HeaderField): bytes {
    if f.Field? then f.val else StatusText(f.code, f.reason)
  }

  function PrintField(f: HeaderField): bytes {
    KeyOf(f) + [COLON, SPACE] + ValOf(f)
  }

  function Texts(fs: seq<HeaderField>): seq<bytes> {
    if fs == [] then [] else [PrintField(fs[0])] + Texts(fs[1..])
  }

  function CrlfLines(texts: seq<bytes>): bytes {
    if texts == [] then [] else texts[0] + CRLF + CrlfLines(texts[1..])
  }

  /** Every field on a line of its own ended by CRLF, then an empty line, then the body. */
  function Print(fs: seq<HeaderField>, body: bytes): bytes {
    CrlfLines(Texts(fs)) + CRLF + body
  }

  // ---- What the parser should find ----

  function StatusOf(fs: seq<HeaderField>, default: int): int {
    if fs == [] then default
    else if fs[|fs| - 1].Status? then fs[|fs| - 1].code
    else StatusOf(fs[..|fs| - 1], default)
  }

  function ValueOf(f: HeaderField, k: bytes): seq<bytes> {
    if f.Field? && CanonicalKey(f.key) == k then [f.val] else []
  }

  /** The values given for a canonical key, in order. */
  function Values(fs: seq<HeaderField>, k: bytes): seq<bytes> {
    if fs == [] then [] else ValueOf(fs[0], k) + Values(fs[1..], k)
  }

  // ---- Numbers ----

  lemma {:induction false} DigitsAppend(s: bytes, d: byte)
    requires DigitsValue(s).Some? && 48 <= d <= 57
    ensures DigitsValue(s + [d]) == Some(DigitsValue(s).value * 10 + (d as int - 48))
  {
  }

  ghost predicate AllDigits(s: bytes) {
    forall i :: 0 <= i < |s| ==> 48 <= s[i] <= 57
  }

  lemma {:induction false} DecimalAllDigits(n: nat)
    ensures Decimal(n) != [] && AllDigits(Decimal(n))
  {
    if n >= 10 {
      DecimalAllDigits(n / 10);
    }
  }

  lemma {:induction false} DecimalStep(n: nat)
    ensures Decimal(n) == (if n < 10 then [] else Decimal(n / 10)) + [(n % 10 + 48) as byte]
  {
  }

  lemma {:induction false} DecimalValue(n: nat)
    ensures DigitsValue(Decimal(n)) == Some(n)
  {
    var last := (n % 10 + 48) as byte;
    DecimalStep(n);
    if n < 10 {
      DigitsAppend([], last);
    } else {
      DecimalValue(n / 10);
      DigitsAppend(Decimal(n / 10), last);
    }
  }

  lemma {:induction false} DecimalDigits(n: nat)
    ensures Decimal(n) != [] && AllDigits(Decimal(n)) && DigitsValue(Decimal(n)) == Some(n)
  {
    DecimalAllDigits(n);
    DecimalValue(n);
  }

  lemma {:induction false} AtoiOfDecimal(n: nat)
    requires n <= MAX_INT
    ensures Atoi(Decimal(n)) == Some(n)
  {
    DecimalDigits(n);
  }

  lemma StatusTextCode(code: nat, reason: bytes)
    requires code <= MAX_INT
    ensures Atoi(UpToSpace(StatusText(code, reason))) == Some(code)
  {
    DecimalDigits(code);
    AtoiOfDecimal(code);
    if reason == [] {
      assert StatusText(code, reason) == Decimal(code);
      IndexAbsent(Decimal(code), SPACE);
    } else {
      assert StatusText(code, reason) == Decimal(code) + [SPACE] + reason;
      IndexAfter(Decimal(code), SPACE, reason);
    }
  }

  /** ASCII text in front of trimmed text does not make its end a white space character. */
  lemma BackStaysTrimmed(a: bytes, b: bytes)
    requires b != [] && SpaceAtBack(b) == 0 && forall i :: 0 <= i < |a| ==> a[i] < 128
    ensures SpaceAtBack(a + b) == 0
  {
  }

  lemma DigitsTrimmed(s: bytes)
    requires s != [] && AllDigits(s)
    ensures Trimmed(s)
  {
  }

  lemma FrontStaysTrimmed(a: bytes, b: bytes)
    requires a != [] && 33 <= a[0] < 128
    ensures SpaceAtFront(a + b) == 0
  {
  }

  lemma TextAfterDigitsTrimmed(digits: bytes, reason: bytes)
    requires digits != [] && AllDigits(digits) && reason != [] && Trimmed(reason)
    ensures Trimmed(digits + ([SPACE] + reason))
  {
    assert digits + ([SPACE] + reason) == (digits + [SPACE]) + reason;
    FrontStaysTrimmed(digits, [SPACE] + reason);
    BackStaysTrimmed(digits + [SPACE], reason);
  }

  lemma StatusTextTrimmed(code: nat, reason: bytes)
    requires Trimmed(reason)
    ensures Trimmed(StatusText(code, reason))
  {
    DecimalAllDigits(code);
    if reason == [] {
      DigitsTrimmed(Decimal(code));
      assert StatusText(code, reason) == Decimal(code);
    } else {
      TextAfterDigitsTrimmed(Decimal(code), reason);
    }
  }

  lemma OneLineJoins(a: bytes, b: bytes)
    requires OneLine(a) && OneLine(b)
    ensures OneLine(a + b)
  {
  }

  lemma StatusTextOneLine(code: nat, reason: bytes)
    requires OneLine(reason)
    ensures OneLine(StatusText(code, reason))
  {
    DecimalDigits(code);
    assert OneLine(Decimal(code));
    OneLineJoins([SPACE], reason);
    OneLineJoins(Decimal(code), if reason == [] then [] else [SPACE] + reason);
  }

  // ---- One line ----

  lemma ValueIsPlain(f: HeaderField)
    requires WellFormed(f)
    ensures Trimmed(ValOf(f)) && OneLine(ValOf(f)) && Trimmed(KeyOf(f)) && OneLine(KeyOf(f)) && COLON !in KeyOf(f)
  {
    if f.Status? {
      StatusTextTrimmed(f.code, f.reason);
      StatusTextOneLine(f.code, f.reason);
    }
  }

  lemma LineIsPlain(f: HeaderField)
    requires WellFormed(f)
    ensures PrintField(f) != [] && OneLine(PrintField(f))
  {
    ValueIsPlain(f);
    OneLineJoins(KeyOf(f), [COLON, SPACE]);
    OneLineJoins(KeyOf(f) + [COLON, SPACE], ValOf(f));
  }

  function Expect(acc: Head, f: HeaderField): Head {
    if f.Status? then acc.(status := f.code) else acc.(headers := Add(acc.headers, f.key, f.val))
  }

  lemma ColonSplits(key: bytes, val: bytes)
    requires COLON !in key
    ensures var line, k := key + [COLON, SPACE] + val, |key|;
            k < |line| && Index(line, [COLON]) == k && line[..k] == key && line[k + 1..] == [SPACE] + val
  {
    assert key + [COLON, SPACE] + val == key + [COLON] + ([SPACE] + val);
    IndexAfter(key, COLON, [SPACE] + val);
  }

  lemma {:induction false} NoCRToTrim(line: bytes)
    requires OneLine(line)
    ensures TrimRightCR(line) == line
  {
  }

  lemma FieldSplits(f: HeaderField)
    requires WellFormed(f)
    ensures var line, k := PrintField(f), |KeyOf(f)|;
            && k < |line| && TrimRightCR(line) == line != [] && Index(line, [COLON]) == k
            && TrimSpace(line[..k]) == KeyOf(f) && TrimSpace(line[k + 1..]) == ValOf(f)
  {
    LineIsPlain(f);
    NoCRToTrim(PrintField(f));
    ValueIsPlain(f);
    ColonSplits(KeyOf(f), ValOf(f));
    TrimTrimmed(KeyOf(f));
    TrimAfterSpace(ValOf(f));
  }

  lemma StatusFolds()
    ensures FoldsTo(STATUS_KEY, STATUS_FOLDED)
  {
  }

  lemma HeaderLineOfField(acc: Head, f: HeaderField)
    requires WellFormed(f)
    ensures HeaderLine(acc, PrintField(f)) == Good(Expect(acc, f))
  {
    FieldSplits(f);
    if f.Status? {
      StatusTextCode(f.code, f.reason);
      StatusFolds();
    }
  }

  // ---- The header block ----

  function Join(texts: seq<bytes>): bytes
    requires texts != []
  {
    if |texts| == 1 then texts[0] else texts[0] + CRLF + Join(texts[1..])
  }

  ghost predicate AllPlain(texts: seq<bytes>) {
    forall i :: 0 <= i < |texts| ==> texts[i] != [] && OneLine(texts[i])
  }

  /** Joined plain lines hold no blank line and neither start nor end with part of one. */
  ghost predicate NoBlank(j: bytes) {
    && j != [] && j[0] != CR && j[|j| - 1] != CR && j[|j| - 1] != LF
    && forall i :: 0 <= i < |j| - 1 && j[i] == LF ==> j[i + 1] != CR
  }

  lemma NoBlankJoins(t: bytes, rest: bytes)
    requires t != [] && OneLine(t) && NoBlank(rest)
    ensures NoBlank(t + CRLF + rest)
  {
  }

  lemma {:induction false} JoinHasNoBlank(texts: seq<bytes>)
    requires texts != [] && AllPlain(texts)
    ensures NoBlank(Join(texts))
  {
    assert texts[0] != [] && OneLine(texts[0]);
    if |texts| > 1 {
      JoinHasNoBlank(texts[1..]);
      NoBlankJoins(texts[0], Join(texts[1..]));
    }
  }

  lemma NoBlankLineAt(j: bytes, body: bytes, i: int)
    requires NoBlank(j) && i < |j|
    ensures !OccursAt(j + BLANK_LINE + body, BLANK_LINE, i)
  {
    var raw := j + BLANK_LINE + body;
    if 0 <= i {
      var at := raw[i..i + 4];
      assert at[0] == raw[i] == j[i] && at[1] == raw[i + 1] && at[2] == raw[i + 2];
      if i + 1 < |j| { assert raw[i + 1] == j[i + 1]; }
      if i + 2 < |j| { assert raw[i + 2] == j[i + 2]; }
    }
  }

  lemma BlankLineFound(j: bytes, body: bytes)
    requires NoBlank(j)
    ensures Index(j + BLANK_LINE + body, BLANK_LINE) == |j|
  {
    var raw := j + BLANK_LINE + body;
    assert raw[|j|..|j| + 4] == BLANK_LINE;
    assert OccursAt(raw, BLANK_LINE, |j|);
    forall i | i < |j| ensures !OccursAt(raw, BLANK_LINE, i) { NoBlankLineAt(j, body, i); }
  }

  lemma {:induction false} LinesFirst(t: bytes, rest: bytes)
    requires OneLine(t)
    ensures Lines(t + CRLF + rest) == [t] + Lines(rest)
  {
    var h := t + CRLF + rest;
    assert h == (t + [CR]) + [LF] + rest;
    IndexAfter(t + [CR], LF, rest);
    assert h[..|t| + 1] == t + [CR] && h[|t| + 2..] == rest;
    assert DropCR(t + [CR]) == t;
  }

  lemma {:induction false} LinesLast(t: bytes)
    requires t != [] && OneLine(t)
    ensures Lines(t) == [t]
  {
    IndexAbsent(t, LF);
  }

  lemma {:induction false} LinesOfJoin(texts: seq<bytes>)
    requires texts != [] && AllPlain(texts)
    ensures Lines(Join(texts)) == texts
  {
    assert texts[0] != [] && OneLine(texts[0]);
    if |texts| == 1 {
      LinesLast(texts[0]);
    } else {
      var rest := texts[1..];
      LinesOfJoin(rest);
      LinesFirst(texts[0], Join(rest));
      assert Lines(Join(texts)) == [texts[0]] + rest;
    }
  }

  lemma {:induction false} CrlfLinesIsJoin(texts: seq<bytes>)
    requires texts != []
    ensures CrlfLines(texts) == Join(texts) + CRLF
  {
    if |texts| == 1 {
      assert CrlfLines(texts[1..]) == [];
    } else {
      CrlfLinesIsJoin(texts[1..]);
      assert texts[0] + CRLF + (Join(texts[1..]) + CRLF) == texts[0] + CRLF + Join(texts[1..]) + CRLF;
    }
  }

  lemma {:induction false} PrintIsJoin(fs: seq<HeaderField>, body: bytes)
    requires fs != []
    ensures Texts(fs) != [] && Print(fs, body) == Join(Texts(fs)) + BLANK_LINE + body
  {
    CrlfLinesIsJoin(Texts(fs));
    assert CRLF + CRLF == BLANK_LINE;
  }

  lemma {:induction false} TextsPlain(fs: seq<HeaderField>)
    requires forall i :: 0 <= i < |fs| ==> WellFormed(fs[i])
    ensures AllPlain(Texts(fs))
  {
    if fs != [] {
      LineIsPlain(fs[0]);
      TextsPlain(fs[1..]);
    }
  }

  function ExpectAll(acc: Head, fs: seq<HeaderField>): Head
    decreases |fs|
  {
    if fs == [] then acc else ExpectAll(Expect(acc, fs[0]), fs[1..])
  }

  lemma {:induction false} HeaderLinesOfTexts(acc: Head, fs: seq<HeaderField>)
    requires forall i :: 0 <= i < |fs| ==> WellFormed(fs[i])
    ensures HeaderLines(acc, Texts(fs)) == Good(ExpectAll(acc, fs))
    decreases |fs|
  {
    if fs != [] {
      HeaderLineOfField(acc, fs[0]);
      HeaderLinesOfTexts(Expect(acc, fs[0]), fs[1..]);
      assert Texts(fs)[1..] == Texts(fs[1..]);
    }
  }

  function ValuesIn(h: Headers, k: bytes): seq<bytes> {
    if k in h then h[k] else []
  }

  lemma ExpectCollects(acc: Head, f: HeaderField, k: bytes)
    ensures ValuesIn(Expect(acc, f).headers, k) == ValuesIn(acc.headers, k) + ValueOf(f, k)
    ensures k in Expect(acc, f).headers <==> k in acc.headers || ValueOf(f, k) != []
  {
  }

  lemma {:induction false} ExpectAllCollects(acc: Head, fs: seq<HeaderField>, k: bytes)
    ensures ValuesIn(ExpectAll(acc, fs).headers, k) == ValuesIn(acc.headers, k) + Values(fs, k)
    ensures k in ExpectAll(acc, fs).headers <==> k in acc.headers || Values(fs, k) != []
    decreases |fs|
  {
    if fs != [] {
      var have, first, rest := ValuesIn(acc.headers, k), ValueOf(fs[0], k), Values(fs[1..], k);
      ExpectCollects(acc, fs[0], k);
      ExpectAllCollects(Expect(acc, fs[0]), fs[1..], k);
      assert (have + first) + rest == have + (first + rest);
    }
  }

  lemma {:induction false} ExpectAllStatus(acc: Head, fs: seq<HeaderField>)
    ensures ExpectAll(acc, fs).status == StatusOf(fs, acc.status)
    decreases |fs|
  {
    if fs != [] {
      ExpectAllStatus(Expect(acc, fs[0]), fs[1..]);
      StatusFromFront(fs, acc.status);
    }
  }

  lemma {:induction false} StatusFromFront(fs: seq<HeaderField>, default: int)
    requires fs != []
    ensures StatusOf(fs, default) == StatusOf(fs[1..], if fs[0].Status? then fs[0].code else default)
  {
    if |fs| > 1 && !fs[|fs| - 1].Status? {
      StatusFromFront(fs[..|fs| - 1], default);
      assert fs[..|fs| - 1][1..] == fs[1..][..|fs[1..]| - 1];
    }
  }

  /** What the parser should make of a printed response, for one header key k. */
  ghost predicate Recovers(r: Result, fs: seq<HeaderField>, body: bytes, k: bytes) {
    && r.Parsed? && r.status == StatusOf(fs, STATUS_OK) && r.body == body
    && (k in r.headers <==> Values(fs, k) != []) && ValuesIn(r.headers, k) == Values(fs, k)
  }

  lemma {:induction false} ExpectedRecovers(fs: seq<HeaderField>, body: bytes, k: bytes)
    ensures var h := ExpectAll(Head(STATUS_OK, map[]), fs);
            Recovers(Parsed(h.status, h.headers, body), fs, body, k)
  {
    ExpectAllCollects(Head(STATUS_OK, map[]), fs, k);
    ExpectAllStatus(Head(STATUS_OK, map[]), fs);
  }

  lemma {:induction false} ParsedAt(fs: seq<HeaderField>, raw: bytes, headerEnd: nat, bodyStart: nat, k: bytes)
    requires forall i :: 0 <= i < |fs| ==> WellFormed(fs[i])
    requires headerEnd <= |raw| && bodyStart <= |raw| && Lines(raw[..headerEnd]) == Texts(fs)
    ensures Recovers(ParseAt(raw, headerEnd, bodyStart), fs, raw[bodyStart..], k)
  {
    HeaderLinesOfTexts(Head(STATUS_OK, map[]), fs);
    ExpectedRecovers(fs, raw[bodyStart..], k);
  }

  /**
   Printing any well-formed response with at least one header line and then parsing it gives back the
   status, every header's values in order, and the body byte for byte, blank lines in the body included.
   */
  lemma {:induction false} RoundTrip(fs: seq<HeaderField>, body: bytes, k: bytes)
    requires fs != [] && forall i :: 0 <= i < |fs| ==> WellFormed(fs[i])
    ensures Recovers(Parse(Print(fs, body)), fs, body, k)
  {
    var raw, j := Print(fs, body), Join(Texts(fs));
    PrintIsJoin(fs, body);
    TextsPlain(fs);
    JoinHasNoBlank(Texts(fs));
    BlankLineFound(j, body);
    assert raw[..|j|] == j && raw[|j| + 4..] == body;
    LinesOfJoin(Texts(fs));
    ParsedAt(fs, raw, |j|, |j| + 4, k);
  }

  // ---- Lines ended by LF alone ----

  function LfLines(texts: seq<bytes>): bytes {
    if texts == [] then [] else texts[0] + [LF] + LfLines(texts[1..])
  }

  /** The same response with LF for every CRLF of the header block. */
  function PrintLf(fs: seq<HeaderField>, body: bytes): bytes {
    LfLines(Texts(fs)) + [LF] + body
  }

  function JoinLf(texts: seq<bytes>): bytes
    requires texts != []
  {
    if |texts| == 1 then texts[0] else texts[0] + [LF] + JoinLf(texts[1..])
  }

  /** Plain lines joined by LF hold no CR and no empty line, and do not end in LF. */
  ghost predicate NoBlankLf(j: bytes) {
    && j != [] && j[0] != LF && j[|j| - 1] != LF && CR !in j
    && forall i :: 0 <= i < |j| - 1 && j[i] == LF ==> j[i + 1] != LF
  }

  lemma NoBlankLfJoins(t: bytes, rest: bytes)
    requires t != [] && OneLine(t) && NoBlankLf(rest)
    ensures NoBlankLf(t + [LF] + rest)
  {
    var j := t + [LF] + rest;
    assert j[0] == t[0] && j[|j| - 1] == rest[|rest| - 1] && j[|t|] == LF && j[|t| + 1] == rest[0];
    forall i | 0 <= i < |j| - 1 ensures j[i] == LF ==> j[i + 1] != LF {
      if i < |t| { assert j[i] == t[i]; }
      if i > |t| { assert j[i] == rest[i - |t| - 1] && j[i + 1] == rest[i - |t|]; }
    }
  }

  lemma {:induction false} JoinLfHasNoBlank(texts: seq<bytes>)
    requires texts != [] && AllPlain(texts)
    ensures NoBlankLf(JoinLf(texts))
  {
    assert texts[0] != [] && OneLine(texts[0]);
    if |texts| > 1 {
      JoinLfHasNoBlank(texts[1..]);
      NoBlankLfJoins(texts[0], JoinLf(texts[1..]));
    }
  }

  lemma {:induction false} LfLinesIsJoin(texts: seq<bytes>)
    requires texts != []
    ensures LfLines(texts) == JoinLf(texts) + [LF]
  {
    if |texts| == 1 {
      assert LfLines(texts[1..]) == [];
    } else {
      LfLinesIsJoin(texts[1..]);
      assert texts[0] + [LF] + (JoinLf(texts[1..]) + [LF]) == texts[0] + [LF] + JoinLf(texts[1..]) + [LF];
    }
  }

  lemma {:induction false} PrintLfIsJoin(fs: seq<HeaderField>, body: bytes)
    requires fs != []
    ensures Texts(fs) != [] && PrintLf(fs, body) == JoinLf(Texts(fs)) + [LF, LF] + body
  {
    LfLinesIsJoin(Texts(fs));
    assert [LF] + [LF] == [LF, LF];
  }

  lemma DropCRPlain(t: bytes)
    requires OneLine(t)
    ensures DropCR(t) == t
  {
  }

  lemma {:induction false} LinesFirstLf(t: bytes, rest: bytes)
    requires OneLine(t)
    ensures Lines(t + [LF] + rest) == [t] + Lines(rest)
  {
    var h := t + [LF] + rest;
    IndexAfter(t, LF, rest);
    assert h[..|t|] == t && h[|t| + 1..] == rest;
    DropCRPlain(t);
  }

  lemma {:induction false} LinesOfJoinLf(texts: seq<bytes>)
    requires texts != [] && AllPlain(texts)
    ensures Lines(JoinLf(texts)) == texts
  {
    assert texts[0] != [] && OneLine(texts[0]);
    if |texts| == 1 {
      LinesLast(texts[0]);
    } else {
      var rest := texts[1..];
      LinesOfJoinLf(rest);
      LinesFirstLf(texts[0], JoinLf(rest));
      assert Lines(JoinLf(texts)) == [texts[0]] + rest;
    }
  }

  lemma StartsWithCR(s: bytes, i: int)
    ensures OccursAt(s, BLANK_LINE, i) ==> s[i] == CR
  {
    if OccursAt(s, BLANK_LINE, i) { assert s[i] == s[i..i + 4][0]; }
  }

  /** A CRLF blank line starts with CR, so it occurs behind an LF-only header block exactly where it occurs in the body. */
  lemma BlankOnlyInBody(j: bytes, body: bytes, i: int)
    requires CR !in j
    ensures OccursAt(j + [LF, LF] + body, BLANK_LINE, i) <==> OccursAt(body, BLANK_LINE, i - |j| - 2)
  {
    var head := j + [LF, LF];
    var raw := head + body;
    assert 0 <= i < |head| ==> raw[i] == head[i] && head[i] != CR;
    StartsWithCR(raw, i);
    if i >= |head| && i + 4 <= |raw| {
      assert raw[i..i + 4] == body[i - |head|..i - |head| + 4];
    }
  }

  lemma BlankIndexInBody(j: bytes, body: bytes)
    requires CR !in j
    ensures var at := Index(body, BLANK_LINE);
            Index(j + [LF, LF] + body, BLANK_LINE) == if at < 0 then -1 else |j| + 2 + at
  {
    var at := Index(body, BLANK_LINE);
    forall i ensures OccursAt(j + [LF, LF] + body, BLANK_LINE, i) <==> OccursAt(body, BLANK_LINE, i - |j| - 2) {
      BlankOnlyInBody(j, body, i);
    }
    if at >= 0 {
      assert OccursAt(j + [LF, LF] + body, BLANK_LINE, at + |j| + 2);
    }
  }

  lemma NoLfLfBefore(j: bytes, body: bytes, i: int)
    requires NoBlankLf(j) && i < |j|
    ensures !OccursAt(j + [LF, LF] + body, [LF, LF], i)
  {
    var raw := j + [LF, LF] + body;
    if 0 <= i {
      var at := raw[i..i + 2];
      assert at[0] == raw[i] == j[i] && at[1] == raw[i + 1];
      if i + 1 < |j| { assert raw[i + 1] == j[i + 1]; }
    }
  }

  lemma LfLfFound(j: bytes, body: bytes)
    requires NoBlankLf(j)
    ensures Index(j + [LF, LF] + body, [LF, LF]) == |j|
  {
    var raw := j + [LF, LF] + body;
    assert raw[|j|..|j| + 2] == [LF, LF];
    assert OccursAt(raw, [LF, LF], |j|);
    forall i | i < |j| ensures !OccursAt(raw, [LF, LF], i) { NoLfLfBefore(j, body, i); }
  }

  /** Where the parser cuts an LF-only response. */
  lemma SeparatorLf(j: bytes, body: bytes)
    requires NoBlankLf(j)
    ensures var at := Index(body, BLANK_LINE);
            Separator(j + [LF, LF] + body) == if at < 0 then (|j|, |j| + 2) else (|j| + 2 + at, |j| + 6 + at)
  {
    BlankIndexInBody(j, body);
    LfLfFound(j, body);
  }

  /**
   A CRLF blank line anywhere is taken before an LF one. So a response whose header lines end in LF
   alone parses back to its status, headers and body if and only if its body holds no CRLF blank line.
   */
  lemma RoundTripLfIff(fs: seq<HeaderField>, body: bytes, k: bytes)
    requires fs != [] && forall i :: 0 <= i < |fs| ==> WellFormed(fs[i])
    ensures Recovers(Parse(PrintLf(fs, body)), fs, body, k) <==> Index(body, BLANK_LINE) < 0
  {
    var raw, j := PrintLf(fs, body), JoinLf(Texts(fs));
    PrintLfIsJoin(fs, body);
    TextsPlain(fs);
    JoinLfHasNoBlank(Texts(fs));
    SeparatorLf(j, body);
    if Index(body, BLANK_LINE) < 0 {
      LinesOfJoinLf(Texts(fs));
      assert raw[..|j|] == j && raw[|j| + 2..] == body;
      ParsedAt(fs, raw, |j|, |j| + 2, k);
    } else {
      ShorterBody(raw, Separator(raw).0, Separator(raw).1);
    }
  }

  lemma ShorterBody(raw: bytes, headerEnd: nat, bodyStart: nat)
    requires headerEnd <= |raw| && bodyStart <= |raw|
    ensures var r := ParseAt(raw, headerEnd, bodyStart);
            r.Parsed? ==> |r.body| == |raw| - bodyStart
  {
    BadIsError(Head(STATUS_OK, map[]), Lines(raw[..headerEnd]));
  }

  /** A header block that cannot be read gives an error, not a response. */
  lemma {:induction false} BadIsError(acc: Head, lines: seq<bytes>)
    ensures var r := HeaderLines(acc, lines);
            r.Bad? ==> !r.error.Parsed?
    decreases |lines|
  {
    if lines != [] && HeaderLine(acc, lines[0]).Good? {
      BadIsError(HeaderLine(acc, lines[0]).head, lines[1..]);
    }
  }

  /** "Status: 200" with LF line ends, and the body CR LF CR LF: the body is lost. */
  lemma LfBodyLost(k: bytes)
    ensures var fs := [Status(200, [])];
            WellFormed(fs[0]) && !Recovers(Parse(PrintLf(fs, BLANK_LINE)), fs, BLANK_LINE, k)
  {
    assert BLANK_LINE[0..4] == BLANK_LINE;
    assert OccursAt(BLANK_LINE, BLANK_LINE, 0);
    RoundTripLfIff([Status(200, [])], BLANK_LINE, k);
  }
}
