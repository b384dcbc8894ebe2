/** The free-form tags of a remembered note and their encoding as a suffix of its source name. */
module Tags {
  import opened Bytes

  const COMMA: byte := 44
  const MAX_TAGS: nat := 10
  const MAX_TAG_LEN: nat := 32

  // ---- One tag ----

  function CommasToSpaces(s: bytes): bytes {
    seq(|s|, i requires 0 <= i < |s| => if s[i] == COMMA then SPACE else s[i])
  }

  /** What the encoding needs of a tag: something to read back, short, and no separator inside. */
  predicate GoodTag(t: bytes) {
    0 < |t| <= MAX_TAG_LEN && COMMA !in t
  }

  function FirstBytes(t: bytes): bytes {
    if |t| > MAX_TAG_LEN then t[..MAX_TAG_LEN] else t
  }

  function Shorten(t: bytes): bytes {
    CommasToSpaces(FirstBytes(t))
  }

  /** The tag that raw stands for, empty when raw is blank. */
  function Clean(raw: bytes): bytes {
    Shorten(TrimSpace(raw))
  }

  lemma ShortenIsGood(t: bytes)
    ensures if t == [] then Shorten(t) == [] else GoodTag(Shorten(t))
    ensures GoodTag(t) ==> Shorten(t) == t
  {
  }

  function Each(f: bytes -> bytes, tags: seq<bytes>): seq<bytes> {
    seq(|tags|, i requires 0 <= i < |tags| => f(tags[i]))
  }

  function Cleaned(tags: seq<bytes>): seq<bytes> {
    Each(Clean, tags)
  }

  /** tags followed by t, unless t is blank. */
  function Push(tags: seq<bytes>, t: bytes): seq<bytes> {
    if |t| == 0 then tags else tags + [t]
  }

  function NonBlank(tags: seq<bytes>): seq<bytes> {
    if |tags| == 0 then [] else Push(NonBlank(tags[..|tags| - 1]), tags[|tags| - 1])
  }

  /** The clean form of every tag that is not blank, in order. */
  function Mapped(tags: seq<bytes>): seq<bytes> {
    NonBlank(Cleaned(tags))
  }

  lemma {:induction false} NonBlankElements(tags: seq<bytes>)
    ensures forall t :: t in NonBlank(tags) <==> t in tags && |t| != 0
  {
    if |tags| != 0 {
      var n := |tags| - 1;
      NonBlankElements(tags[..n]);
      assert tags == tags[..n] + [tags[n]];
    }
  }

  lemma {:induction false} NonBlankPrefix(tags: seq<bytes>, k: nat)
    requires k <= |tags|
    ensures NonBlank(tags[..k]) <= NonBlank(tags)
    decreases |tags|
  {
    if k < |tags| {
      var n := |tags| - 1;
      NonBlankPrefix(tags[..n], k);
      assert tags[..n][..k] == tags[..k];
    } else {
      assert tags[..k] == tags;
    }
  }

  lemma {:induction false} NonBlankLength(tags: seq<bytes>)
    ensures |NonBlank(tags)| <= |tags|
    ensures |NonBlank(tags)| == |tags| ==> NonBlank(tags) == tags
    ensures (forall i :: 0 <= i < |tags| ==> |tags[i]| != 0) ==> |NonBlank(tags)| == |tags|
  {
    if |tags| != 0 {
      var n := |tags| - 1;
      NonBlankLength(tags[..n]);
      assert tags == tags[..n] + [tags[n]];
    }
  }

  lemma MappedIsGood(tags: seq<bytes>)
    ensures forall t :: t in Mapped(tags) ==> GoodTag(t)
  {
    NonBlankElements(Cleaned(tags));
    forall i | 0 <= i < |tags| ensures |Clean(tags[i])| == 0 || GoodTag(Clean(tags[i])) {
      ShortenIsGood(TrimSpace(tags[i]));
    }
  }

  // ---- Order-preserving de-duplication ----

  /** Keeps an element exactly where it occurs first. */
  function Dedup(s: seq<bytes>): seq<bytes> {
    if s == [] then []
    else
      var n := |s| - 1;
      if s[n] in s[..n] then Dedup(s[..n]) else Dedup(s[..n]) + [s[n]]
  }

  predicate Distinct(s: seq<bytes>) {
    forall i, j :: 0 <= i < j < |s| ==> s[i] != s[j]
  }

  function FirstAt(s: seq<bytes>, t: bytes): (i: nat)
    requires t in s
    ensures i < |s| && s[i] == t && t !in s[..i]
  {
    if s[0] == t then 0 else 1 + FirstAt(s[1..], t)
  }

  lemma {:induction false} DedupElements(s: seq<bytes>)
    ensures forall t :: t in Dedup(s) <==> t in s
  {
    if s != [] {
      var n := |s| - 1;
      DedupElements(s[..n]);
      assert s == s[..n] + [s[n]];
    }
  }

  lemma {:induction false} DedupDistinct(s: seq<bytes>)
    ensures Distinct(Dedup(s))
  {
    if s != [] {
      var n := |s| - 1;
      DedupDistinct(s[..n]);
      DedupElements(s[..n]);
    }
  }

  lemma {:induction false} FirstAtExtended(s: seq<bytes>, x: bytes, t: bytes)
    requires t in s
    ensures FirstAt(s + [x], t) == FirstAt(s, t)
  {
    if s[0] != t {
      FirstAtExtended(s[1..], x, t);
      assert (s + [x])[1..] == s[1..] + [x];
    }
  }

  /** Survivors stand in the order of their first occurrences. */
  lemma {:induction false} DedupInOrder(s: seq<bytes>, i: nat, j: nat)
    requires i < j < |Dedup(s)|
    ensures Dedup(s)[i] in s && Dedup(s)[j] in s
    ensures FirstAt(s, Dedup(s)[i]) < FirstAt(s, Dedup(s)[j])
  {
    var n, d := |s| - 1, Dedup(s);
    var front := s[..n];
    assert s == front + [s[n]];
    DedupElements(s);
    DedupElements(front);
    FirstAtExtended(front, s[n], d[i]);
    if j < |Dedup(front)| {
      DedupInOrder(front, i, j);
      FirstAtExtended(front, s[n], d[j]);
    } else {
      assert FirstAt(s, d[j]) == n;
    }
  }

  /** More input never changes what has been kept. */
  lemma {:induction false} DedupPrefix(part: seq<bytes>, s: seq<bytes>)
    requires part <= s
    ensures Dedup(part) <= Dedup(s)
    decreases |s|
  {
    if |part| < |s| {
      DedupPrefix(part, s[..|s| - 1]);
    } else {
      assert part == s;
    }
  }

  // ---- The whole list ----

  /** The first ten of the de-duplicated mapped tags. */
  function Normalize(tags: seq<bytes>): seq<bytes> {
    FirstTen(Dedup(Mapped(tags)))
  }

  function FirstTen(tags: seq<bytes>): seq<bytes> {
    if |tags| > MAX_TAGS then tags[..MAX_TAGS] else tags
  }

  /** What applyTagsToSourceName relies on. */
  predicate Encodable(tags: seq<bytes>) {
    Distinct(tags) && |tags| <= MAX_TAGS
    && forall i :: 0 <= i < |tags| ==> GoodTag(tags[i])
  }

  lemma NormalizedIsEncodable(tags: seq<bytes>)
    ensures Encodable(Normalize(tags))
    ensures |Normalize(tags)| <= 10
    ensures forall t :: t in Normalize(tags) ==> 0 < |t| <= 32 && (44 as byte) !in t
  {
    var m := Mapped(tags);
    MappedIsGood(tags);
    DedupDistinct(m);
    DedupElements(m);
    var r := Normalize(tags);
    forall i | 0 <= i < |r| ensures r[i] in m {
      assert r[i] == Dedup(m)[i];
    }
  }

  lemma CleanedPrefix(tags: seq<bytes>, k: nat)
    requires k <= |tags|
    ensures Cleaned(tags[..k]) == Cleaned(tags)[..k]
  {
  }

  lemma {:induction false} KeptPrefix(cleaned: seq<bytes>, k: nat)
    requires k <= |cleaned|
    ensures Dedup(NonBlank(cleaned[..k])) <= Dedup(NonBlank(cleaned))
  {
    NonBlankPrefix(cleaned, k);
    DedupPrefix(NonBlank(cleaned[..k]), NonBlank(cleaned));
  }

  /** Ten kept tags are the answer, whatever else the caller listed. */
  lemma FullIsFinal(tags: seq<bytes>, k: nat)
    requires k <= |tags| && |Kept(tags, k)| == MAX_TAGS
    ensures Kept(tags, k) == Normalize(tags)
  {
    CleanedPrefix(tags, k);
    KeptPrefix(Cleaned(tags), k);
  }

  lemma CleanedStep(tags: seq<bytes>, k: nat)
    requires k < |tags|
    ensures Cleaned(tags[..k + 1]) == Cleaned(tags[..k]) + [Clean(tags[k])]
  {
    EachStep(Clean, tags, k);
  }

  lemma EachStep(f: bytes -> bytes, tags: seq<bytes>, k: nat)
    requires k < |tags|
    ensures Each(f, tags[..k + 1]) == Each(f, tags[..k]) + [f(tags[k])]
  {
  }

  lemma {:induction false} NonBlankStep(tags: seq<bytes>, t: bytes)
    ensures NonBlank(tags + [t]) == Push(NonBlank(tags), t)
  {
  }

  lemma MappedStep(tags: seq<bytes>, k: nat)
    requires k < |tags|
    ensures Mapped(tags[..k + 1]) == Push(Mapped(tags[..k]), Clean(tags[k]))
  {
    CleanedStep(tags, k);
    NonBlankStep(Cleaned(tags[..k]), Clean(tags[k]));
  }

  lemma {:induction false} DedupStep(s: seq<bytes>, t: bytes)
    ensures Dedup(s + [t]) == if t in Dedup(s) then Dedup(s) else Dedup(s) + [t]
  {
    assert (s + [t])[..|s|] == s;
    DedupElements(s);
  }

  /** What is kept of the first k tags, before the cap. */
  function Kept(tags: seq<bytes>, k: nat): seq<bytes>
    requires k <= |tags|
  {
    Dedup(Mapped(tags[..k]))
  }

  lemma KeptStep(tags: seq<bytes>, k: nat)
    requires k < |tags|
    ensures var c := Clean(tags[k]);
            Kept(tags, k + 1) == if |c| == 0 || c in Kept(tags, k) then Kept(tags, k) else Kept(tags, k) + [c]
  {
    MappedStep(tags, k);
    DedupStep(Mapped(tags[..k]), Clean(tags[k]));
  }

  lemma KeptEnds(tags: seq<bytes>)
    ensures Kept(tags, 0) == []
    ensures |Kept(tags, |tags|)| <= MAX_TAGS ==> Kept(tags, |tags|) == Normalize(tags)
  {
    assert tags[..|tags|] == tags && Cleaned(tags[..0]) == [];
  }

  /** Trim, truncate, replace commas; empty for a blank tag. */
  method CleanTag(raw: bytes) returns (t: bytes)
    ensures t == Clean(raw)
  {
    t := TrimSpace(raw);
    ShortenIsGood(t);
    if |t| == 0 { return; }
    if |t| > MAX_TAG_LEN {
      t := t[..MAX_TAG_LEN];
    }
    t := CommasToSpaces(t);
  }

  method NormalizeTags(tags: seq<bytes>) returns (out: seq<bytes>)
    ensures out == Normalize(tags)
  {
    KeptEnds(tags);
    out := [];
    var seen: set<bytes> := {};
    var k := 0;
    while k < |tags| && |out| < MAX_TAGS
      invariant k <= |tags| && out == Kept(tags, k) && |out| <= MAX_TAGS
      invariant forall t :: t in seen <==> t in out
    {
      KeptStep(tags, k);
      var t := CleanTag(tags[k]);
      if |t| != 0 && t !in seen {
        seen := seen + {t};
        out := out + [t];
      }
      k := k + 1;
    }
    if |out| == MAX_TAGS {
      FullIsFinal(tags, k);
    }
  }

  /** Byte for byte: a tag keeps its first 32 trimmed bytes, with a space (32) for every comma (44). */
  lemma CleanBytes(raw: bytes)
    ensures var t, c := TrimSpace(raw), Clean(raw);
            && |c| == (if |t| <= 32 then |t| else 32)
            && forall i :: 0 <= i < |c| ==> c[i] == if t[i] == 44 then 32 else t[i]
  {
  }

  // ---- Normalising again ----

  lemma {:induction false} DistinctAlready(s: seq<bytes>, k: nat)
    requires Distinct(s) && k <= |s|
    ensures Dedup(s[..k]) == s[..k]
  {
    if k > 0 {
      DistinctAlready(s, k - 1);
      DedupStep(s[..k - 1], s[k - 1]);
      assert s[..k] == s[..k - 1] + [s[k - 1]];
    }
  }

  lemma CleanFixedIff(t: bytes)
    requires GoodTag(t)
    ensures Clean(t) == t <==> Trimmed(t)
  {
  }

  lemma {:induction false} DedupLength(s: seq<bytes>)
    ensures |Dedup(s)| <= |s|
  {
    if s != [] { DedupLength(s[..|s| - 1]); }
  }

  lemma {:induction false} DedupFullLength(s: seq<bytes>)
    requires |Dedup(s)| == |s|
    ensures Distinct(s)
  {
    if s != [] {
      DedupLength(s[..|s| - 1]);
      DedupFullLength(s[..|s| - 1]);
    }
  }

  lemma StableIffTrimmed(tags: seq<bytes>)
    ensures Normalize(Normalize(tags)) == Normalize(tags) <==> forall t :: t in Normalize(tags) ==> Trimmed(t)
  {
    var r := Normalize(tags);
    NormalizedIsEncodable(tags);
    forall i | 0 <= i < |r| ensures Cleaned(r)[i] == r[i] <==> Trimmed(r[i]) {
      CleanFixedIff(r[i]);
    }
    if forall i :: 0 <= i < |r| ==> Trimmed(r[i]) {
      assert Cleaned(r) == r;
    }
    FixedIff(r, Cleaned(r));
  }

  /** r cleaned to c: what is kept of c is r only if cleaning changed nothing. */
  lemma {:induction false} FixedIff(r: seq<bytes>, c: seq<bytes>)
    requires Encodable(r) && |c| == |r|
    ensures FirstTen(Dedup(NonBlank(c))) == r <==> c == r
  {
    NonBlankLength(c);
    if FirstTen(Dedup(NonBlank(c))) == r {
      KeptAll(r, NonBlank(c));
    }
    if c == r {
      DistinctWhole(r);
    }
  }

  lemma {:induction false} KeptAll(r: seq<bytes>, m: seq<bytes>)
    requires FirstTen(Dedup(m)) == r && |m| <= |r|
    ensures m == r
  {
    DedupLength(m);
    DedupFullLength(m);
    DistinctWhole(m);
  }

  lemma {:induction false} DistinctWhole(s: seq<bytes>)
    requires Distinct(s)
    ensures Dedup(s) == s
  {
    DistinctAlready(s, |s|);
    assert s[..|s|] == s;
  }

  // ---- Which raw tags are kept, and what they leave behind ----

  /** The tag at i makes it into the list: not blank, new, and within the first ten. */
  predicate IsKept(tags: seq<bytes>, i: nat)
    requires i < |tags|
  {
    |Clean(tags[i])| != 0 && Clean(tags[i]) !in Kept(tags, i) && |Kept(tags, i)| < MAX_TAGS
  }

  lemma FirstTenStep(s: seq<bytes>, c: bytes)
    ensures FirstTen(s + [c]) == if |s| < MAX_TAGS then FirstTen(s) + [c] else FirstTen(s)
  {
  }

  function Listed(tags: seq<bytes>, k: nat): seq<bytes>
    requires k <= |tags|
  {
    FirstTen(Kept(tags, k))
  }

  lemma ListedStep(tags: seq<bytes>, k: nat)
    requires k < |tags|
    ensures Listed(tags, k + 1) == if IsKept(tags, k) then Listed(tags, k) + [Clean(tags[k])] else Listed(tags, k)
  {
    KeptStep(tags, k);
    FirstTenStep(Kept(tags, k), Clean(tags[k]));
  }

  ghost predicate InList(tags: seq<bytes>, k: nat, t: bytes)
    requires k <= |tags|
  {
    t in Listed(tags, k)
  }

  lemma InListStep(tags: seq<bytes>, k: nat, t: bytes)
    requires k < |tags|
    ensures InList(tags, k + 1, t) <==> InList(tags, k, t) || (IsKept(tags, k) && Clean(tags[k]) == t)
  {
    ListedStep(tags, k);
  }

  lemma NotInEmptyList(tags: seq<bytes>, t: bytes)
    ensures !InList(tags, 0, t)
  {
    KeptEnds(tags);
  }

  lemma {:induction false} KeptIsListed(tags: seq<bytes>, k: nat, i: nat, t: bytes)
    requires i < k <= |tags| && IsKept(tags, i) && Clean(tags[i]) == t
    ensures InList(tags, k, t)
  {
    InListStep(tags, k - 1, t);
    if i < k - 1 {
      KeptIsListed(tags, k - 1, i, t);
    }
  }

  lemma {:induction false} ListedIsKept(tags: seq<bytes>, k: nat, t: bytes) returns (i: nat)
    requires k <= |tags| && InList(tags, k, t)
    ensures i < k && IsKept(tags, i) && Clean(tags[i]) == t
  {
    if k == 0 {
      NotInEmptyList(tags, t);
      assert false;
    } else {
      InListStep(tags, k - 1, t);
      if InList(tags, k - 1, t) {
        i := ListedIsKept(tags, k - 1, t);
      } else {
        i := k - 1;
      }
    }
  }

  lemma ListedAll(tags: seq<bytes>, t: bytes)
    ensures InList(tags, |tags|, t) <==> t in Normalize(tags)
  {
    assert tags[..|tags|] == tags;
  }

  /** The list holds the clean form of every raw tag that is kept ... */
  lemma KeptIsInList(tags: seq<bytes>, i: nat)
    requires i < |tags| && IsKept(tags, i)
    ensures Clean(tags[i]) in Normalize(tags)
  {
    KeptIsListed(tags, |tags|, i, Clean(tags[i]));
    ListedAll(tags, Clean(tags[i]));
  }

  /** ... and nothing else. */
  lemma KeptOf(tags: seq<bytes>, t: bytes) returns (i: nat)
    requires t in Normalize(tags)
    ensures i < |tags| && IsKept(tags, i) && Clean(tags[i]) == t
  {
    ListedAll(tags, t);
    i := ListedIsKept(tags, |tags|, t);
  }

  /** What of a raw tag is stored, but for its commas: trimmed, then its first 32 bytes. */
  function Cut(raw: bytes): bytes {
    FirstBytes(TrimSpace(raw))
  }

  /** No comma at either end, and no white space character where the cut fell. */
  predicate CleanEnds(v: bytes) {
    v != [] && v[0] != COMMA && v[|v| - 1] != COMMA && SpaceAtBack(v) == 0
  }

  lemma FrontOfCommas(v: bytes)
    requires v != []
    ensures SpaceAtFront(CommasToSpaces(v)) == if v[0] == COMMA then 1 else SpaceAtFront(v)
  {
  }

  lemma BackOfCommas(v: bytes)
    requires v != []
    ensures SpaceAtBack(CommasToSpaces(v)) == if v[|v| - 1] == COMMA then 1 else SpaceAtBack(v)
  {
  }

  /** A raw tag is stored without outer white space iff what is cut from it has clean ends. */
  lemma TrimmedIff(raw: bytes)
    requires TrimSpace(raw) != []
    ensures Trimmed(Clean(raw)) <==> CleanEnds(Cut(raw))
  {
    TrimmedByTrim(raw);
    FrontOfPrefix(Cut(raw), TrimSpace(raw));
    FrontOfCommas(Cut(raw));
    BackOfCommas(Cut(raw));
  }

  lemma KeptIsNotBlank(raw: bytes)
    requires |Clean(raw)| != 0
    ensures TrimSpace(raw) != []
  {
  }

  /**
   Normalising is stable exactly when the raw tags it keeps have clean ends. A comma at either end of
   a tag, or a cut at 32 bytes that leaves a white space character last, breaks it.
   */
  lemma StableIff(tags: seq<bytes>)
    ensures Normalize(Normalize(tags)) == Normalize(tags) <==>
            forall i :: 0 <= i < |tags| && IsKept(tags, i) ==> CleanEnds(Cut(tags[i]))
  {
    var r := Normalize(tags);
    StableIffTrimmed(tags);
    forall i | 0 <= i < |tags| && IsKept(tags, i)
      ensures Clean(tags[i]) in r && (Trimmed(Clean(tags[i])) <==> CleanEnds(Cut(tags[i])))
    {
      KeptIsInList(tags, i);
      KeptIsNotBlank(tags[i]);
      TrimmedIff(tags[i]);
    }
    if forall i :: 0 <= i < |tags| && IsKept(tags, i) ==> CleanEnds(Cut(tags[i])) {
      forall t | t in r ensures Trimmed(t) { var i := KeptOf(tags, t); }
    }
  }

  /** Nothing but commas and white space characters. */
  predicate CommasAndSpace(v: bytes)
    decreases |v|
  {
    || |v| == 0
    || (v[0] == COMMA && CommasAndSpace(v[1..]))
    || (SpaceAtFront(v) > 0 && CommasAndSpace(v[SpaceAtFront(v)..]))
  }

  lemma CommasToSpacesFrom(v: bytes, n: nat)
    requires n <= |v|
    ensures CommasToSpaces(v)[n..] == CommasToSpaces(v[n..])
  {
  }

  lemma {:induction false} BlankWithoutCommas(v: bytes)
    ensures Blank(CommasToSpaces(v)) <==> CommasAndSpace(v)
    decreases |v|
  {
    if |v| > 0 {
      FrontOfCommas(v);
      var n := if v[0] == COMMA then 1 else SpaceAtFront(v);
      CommasToSpacesFrom(v, n);
      if n > 0 {
        BlankWithoutCommas(v[n..]);
      }
    }
  }

  /** A raw tag is stored as a blank iff what is cut from it is commas and white space, and not nothing. */
  lemma StoredBlankIff(raw: bytes)
    ensures |Clean(raw)| != 0 && TrimSpace(Clean(raw)) == [] <==> Cut(raw) != [] && CommasAndSpace(Cut(raw))
  {
    TrimsToNothing(Clean(raw));
    BlankWithoutCommas(Cut(raw));
  }

  /** The list holds a blank iff it keeps such a raw tag. */
  lemma ListHoldsBlankIff(tags: seq<bytes>)
    ensures (exists t :: t in Normalize(tags) && TrimSpace(t) == []) <==>
            exists i :: 0 <= i < |tags| && IsKept(tags, i) && CommasAndSpace(Cut(tags[i]))
  {
    forall i | 0 <= i < |tags| && IsKept(tags, i)
      ensures Clean(tags[i]) in Normalize(tags) && (TrimSpace(Clean(tags[i])) == [] <==> CommasAndSpace(Cut(tags[i])))
    {
      KeptIsInList(tags, i);
      StoredBlankIff(tags[i]);
    }
    if t :| t in Normalize(tags) && TrimSpace(t) == [] {
      var i := KeptOf(tags, t);
    }
  }

  /** The tag "," passes the blank test and is stored as a blank. */
  lemma LoneCommaTag()
    ensures Normalize([[COMMA]]) == [[SPACE]]
    ensures Normalize([[SPACE]]) == []
  {
    TrimTrimmed([COMMA]);
    TrimAfterSpace([]);
    assert [SPACE] + [] == [SPACE];
    MapOne([COMMA]);
    MapOne([SPACE]);
    ShortenComma();
  }

  lemma ShortenComma()
    ensures Shorten([COMMA]) == [SPACE] && Shorten([]) == []
  {
  }

  lemma MapOne(t: bytes)
    ensures Normalize([t]) == Push([], Clean(t))
  {
    EachStep(Clean, [t], 0);
    assert [t][..1] == [t] && Each(Clean, [t][..0]) == [];
    KeepOne(Clean(t));
  }

  lemma KeepOne(c: bytes)
    ensures NonBlank([c]) == Dedup(NonBlank([c])) == Push([], c)
  {
  }

  // ---- The source-name suffix ----

  const TAGS_SUFFIX: bytes := [59, 116, 97, 103, 115, 61]

  function Join(tags: seq<bytes>): bytes
    requires tags != []
  {
    if |tags| == 1 then tags[0] else tags[0] + [COMMA] + Join(tags[1..])
  }

  function Split(s: bytes): (r: seq<bytes>)
    ensures r != []
    decreases |s|
  {
    var i := Index(s, [COMMA]);
    if i < 0 then [s] else [s[..i]] + Split(s[i + 1..])
  }

  function ApplyTagsToSourceName(name: bytes, tags: seq<bytes>): bytes {
    if tags == [] then name else name + TAGS_SUFFIX + Join(tags)
  }

  lemma {:induction false} SplitOfJoin(tags: seq<bytes>)
    requires tags != [] && forall i :: 0 <= i < |tags| ==> COMMA !in tags[i]
    ensures Split(Join(tags)) == tags
  {
    var t := tags[0];
    if |tags| == 1 {
      IndexAbsent(t, COMMA);
    } else {
      var rest := Join(tags[1..]);
      SplitOfJoin(tags[1..]);
      IndexAfter(t, COMMA, rest);
      var s := t + [COMMA] + rest;
      assert s[..|t|] == t && s[|t| + 1..] == rest;
    }
  }

  /** Reading back: past the name and the marker, splitting on commas gives the normalised list. */
  lemma TagsReadBack(name: bytes, tags: seq<bytes>)
    ensures var kept := Normalize(tags);
            var full := ApplyTagsToSourceName(name, kept);
            if kept == [] then full == name
            else name + [59, 116, 97, 103, 115, 61] <= full && Split(full[|name| + 6..]) == kept
  {
    var kept := Normalize(tags);
    NormalizedIsEncodable(tags);
    if kept != [] {
      SplitOfJoin(kept);
      var full := name + TAGS_SUFFIX + Join(kept);
      assert full[|name| + |TAGS_SUFFIX|..] == Join(kept);
    }
  }

  /** For one source name, two tag lists give the same stored name only if they normalise alike. */
  lemma SuffixDeterminesTags(name: bytes, a: seq<bytes>, b: seq<bytes>)
    ensures ApplyTagsToSourceName(name, Normalize(a)) == ApplyTagsToSourceName(name, Normalize(b))
       <==> Normalize(a) == Normalize(b)
  {
    TagsReadBack(name, a);
    TagsReadBack(name, b);
  }
}
