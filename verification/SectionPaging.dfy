/** Reading a document section page by page. */
module SectionPaging {
  import opened Bytes
  import opened Utf8

  const DEFAULT_LIMIT: int := 8000
  const MAX_LIMIT: int := 32000

  datatype Page = Page(content: bytes, totalChars: nat, hasMore: bool, nextOffset: nat)

  function EffectiveLimit(limit: int): (r: nat) {
    if limit <= 0 then DEFAULT_LIMIT else if limit > MAX_LIMIT then MAX_LIMIT else limit
  }

  function Clamp(x: int, n: nat): (r: nat)
    ensures r <= n
  {
    if x < 0 then 0 else if x > n then n else x
  }

  /** The page of runes that a limit and an offset ask for. */
  function PageOf(runes: seq<rune>, limit: int, offset: int): Page {
    var n := |runes|;
    var start := Clamp(offset, n);
    var end := Clamp(start + EffectiveLimit(limit), n);
    Page(Encode(runes[start..end]), n, end < n, if end < n then end else 0)
  }

  method HandleReadSection(content: bytes, limitChars: int, offsetChars: int) returns (page: Page)
    ensures page == PageOf(Decode(content), limitChars, offsetChars)
  {
    var limit := limitChars;
    if limit <= 0 {
      limit := DEFAULT_LIMIT;
    }
    if limit > MAX_LIMIT {
      limit := MAX_LIMIT;
    }
    var offset := offsetChars;
    if offset < 0 {
      offset := 0;
    }
    var runes := Decode(content);
    if offset > |runes| {
      offset := |runes|;
    }
    var end := offset + limit;
    if end > |runes| {
      end := |runes|;
    }
    page := Page(Encode(runes[offset..end]), |runes|, end < |runes|, 0);
    if page.hasMore {
      page := page.(nextOffset := end);
    }
  }

  /**
   A page that announces more moves the offset forward by exactly the effective limit, wherever
   the request pointed; next_offset, which the response omits when zero, is there exactly then.
   */
  lemma NextPageAdvances(runes: seq<rune>, limit: int, offset: int)
    ensures var p := PageOf(runes, limit, offset);
            && (p.hasMore <==> p.nextOffset != 0)
            && (p.hasMore <==> Clamp(offset, |runes|) + EffectiveLimit(limit) < |runes|)
            && (p.hasMore ==> offset < p.nextOffset < |runes|)
            && (p.hasMore ==> 1 <= p.nextOffset - Clamp(offset, |runes|) == EffectiveLimit(limit) <= 32000)
            && EffectiveLimit(limit) == (if limit <= 0 then 8000 else if limit <= 32000 then limit else 32000)
  {
  }

  /** A reader that follows next_offset, sending limits(k) with request k. */
  function Session(runes: seq<rune>, limits: nat -> int, k: nat, offset: nat): (pages: seq<Page>)
    ensures |pages| >= 1
    decreases |runes| - offset
  {
    var p := PageOf(runes, limits(k), offset);
    NextPageAdvances(runes, limits(k), offset);
    [p] + if p.hasMore then Session(runes, limits, k + 1, p.nextOffset) else []
  }

  function Contents(pages: seq<Page>): bytes {
    if |pages| == 0 then [] else pages[0].content + Contents(pages[1..])
  }

  lemma {:induction false} SessionReadsRest(runes: seq<rune>, limits: nat -> int, k: nat, offset: nat)
    requires offset <= |runes|
    ensures Contents(Session(runes, limits, k, offset)) == Encode(runes[offset..])
    decreases |runes| - offset
  {
    var p := PageOf(runes, limits(k), offset);
    NextPageAdvances(runes, limits(k), offset);
    var pages := Session(runes, limits, k, offset);
    assert pages[0] == p;
    if p.hasMore {
      var later := Session(runes, limits, k + 1, p.nextOffset);
      SessionReadsRest(runes, limits, k + 1, p.nextOffset);
      assert pages[1..] == later;
      assert runes[offset..] == runes[offset..p.nextOffset] + runes[p.nextOffset..];
      EncodeAppend(runes[offset..p.nextOffset], runes[p.nextOffset..]);
    } else {
      assert pages[1..] == [] && Contents(pages[1..]) == [];
      assert Clamp(offset + EffectiveLimit(limits(k)), |runes|) == |runes|;
      assert p.content == Encode(runes[offset..|runes|]) && runes[offset..|runes|] == runes[offset..];
    }
  }

  /** Every page but the last announces more, all report the same total, and none is wasted. */
  lemma {:induction false} SessionShape(runes: seq<rune>, limits: nat -> int, k: nat, offset: nat, i: nat)
    requires offset <= |runes|
    requires i < |Session(runes, limits, k, offset)|
    ensures var pages := Session(runes, limits, k, offset);
            && (pages[i].hasMore <==> i + 1 < |pages|)
            && pages[i].totalChars == |runes|
            && (offset < |runes| ==> |pages| <= |runes| - offset)
            && |runes| - offset <= |pages| * 32000
    decreases |runes| - offset
  {
    var p := PageOf(runes, limits(k), offset);
    NextPageAdvances(runes, limits(k), offset);
    if p.hasMore {
      SessionShape(runes, limits, k + 1, p.nextOffset, if i == 0 then 0 else i - 1);
    }
  }

  /**
   Whatever limits are sent, the pages read from offset 0 join to the section with every
   undecodable byte replaced, which is the section itself if and only if it is valid UTF-8.
   */
  lemma {:induction false} PagesJoinToSection(content: bytes, limits: nat -> int)
    ensures var pages := Session(Decode(content), limits, 0, 0);
            && Contents(pages) == Encode(Decode(content))
            && (Contents(pages) == content <==> ValidUtf8(content))
  {
    var runes := Decode(content);
    SessionReadsRest(runes, limits, 0, 0);
    assert runes[0..] == runes;
    EncodeOfDecode(content);
  }

  /** A section of the single byte FF comes back as the three bytes of the replacement character. */
  lemma InvalidByteIsReplaced(limits: nat -> int)
    ensures Contents(Session(Decode([0xFF]), limits, 0, 0)) == [0xEF, 0xBF, 0xBD]
  {
    PagesJoinToSection([0xFF], limits);
    assert [0xFF as byte][1..] == [];
    assert Decode([0xFF]) == [REPLACEMENT];
    assert EncodeRune(REPLACEMENT) == [0xEF, 0xBF, 0xBD];
    EncodeHead(REPLACEMENT, []);
    assert [REPLACEMENT] + [] == [REPLACEMENT] && Encode([]) == [];
  }
}
