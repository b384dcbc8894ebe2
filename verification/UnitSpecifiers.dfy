/** Expansion of the systemd specifiers %h and %% in EnvironmentFile paths. */
module UnitSpecifiers {
  import opened Bytes

  const PERCENT: byte := 37
  const H: byte := 104

  /** What a percent sign followed by c stands for. */
  function Specifier(c: byte, home: bytes): bytes {
    if c == PERCENT then [PERCENT] else if c == H then home else [PERCENT, c]
  }

  function Expand(s: bytes, home: bytes): bytes {
    if s == [] then []
    else if s[0] != PERCENT || |s| == 1 then [s[0]] + Expand(s[1..], home)
    else Specifier(s[1], home) + Expand(s[2..], home)
  }

  lemma {:induction false} NothingToExpand(s: bytes, home: bytes)
    requires PERCENT !in s
    ensures Expand(s, home) == s
  {
    if s != [] { NothingToExpand(s[1..], home); }
  }

  /** What is written so far, and what the rest stands for, make up the whole. */
  ghost predicate Expanded(r: bytes, s: bytes, i: nat, home: bytes)
    requires i <= |s|
  {
    r + Expand(s[i..], home) == Expand(s, home)
  }

  lemma ExpandStart(s: bytes, home: bytes)
    ensures Expanded([], s, 0, home)
  {
    assert s[0..] == s;
  }

  lemma {:induction false} ExpandEnd(r: bytes, s: bytes, home: bytes)
    requires Expanded(r, s, |s|, home)
    ensures r == Expand(s, home)
  {
    assert s[|s|..] == [];
  }

  lemma ExpandOne(r: bytes, s: bytes, i: nat, home: bytes)
    requires i < |s| && (s[i] != PERCENT || i + 1 == |s|) && Expanded(r, s, i, home)
    ensures Expanded(r + [s[i]], s, i + 1, home)
  {
    var t := s[i..];
    assert t[1..] == s[i + 1..];
    Associate(r, [t[0]], Expand(t[1..], home));
  }

  lemma ExpandPair(r: bytes, s: bytes, i: nat, home: bytes)
    requires i + 1 < |s| && s[i] == PERCENT && Expanded(r, s, i, home)
    ensures Expanded(r + Specifier(s[i + 1], home), s, i + 2, home)
  {
    var t := s[i..];
    assert t[2..] == s[i + 2..];
    Associate(r, Specifier(t[1], home), Expand(t[2..], home));
  }

  method ExpandUnitSpecifiers(s: bytes, home: bytes) returns (r: bytes)
    ensures r == Expand(s, home)
  {
    if PERCENT !in s {
      NothingToExpand(s, home);
      return s;
    }
    r := [];
    var i := 0;
    ExpandStart(s, home);
    while i < |s|
      invariant 0 <= i <= |s| && Expanded(r, s, i, home)
    {
      var c := s[i];
      if c != PERCENT || i + 1 >= |s| {
        ExpandOne(r, s, i, home);
        r := r + [c];
        i := i + 1;
      } else {
        ExpandPair(r, s, i, home);
        r := r + Specifier(s[i + 1], home);
        i := i + 2;
      }
    }
    ExpandEnd(r, s, home);
  }

  /**
   The specifiers in bytes: in front of any rest, percent h (104) is the home path, a doubled percent
   sign (37) is one, a percent sign with any other byte is itself, and a last percent sign is itself.
   */
  lemma {:induction false} SpecifierMeaning(c: byte, rest: bytes, home: bytes)
    ensures Expand([37, 104] + rest, home) == home + Expand(rest, home)
    ensures Expand([37, 37] + rest, home) == [37] + Expand(rest, home)
    ensures c != 37 && c != 104 ==> Expand([37, c] + rest, home) == [37, c] + Expand(rest, home)
    ensures c != 37 ==> Expand([c] + rest, home) == [c] + Expand(rest, home)
    ensures Expand([37], home) == [37]
  {
    assert ([37, 104] + rest)[2..] == rest && ([37, 37] + rest)[2..] == rest && ([37, c] + rest)[2..] == rest;
    assert ([c] + rest)[1..] == rest && [37 as byte][1..] == [];
  }

  // ---- Escaping ----

  function Escape(s: bytes): bytes {
    if s == [] then [] else (if s[0] == PERCENT then [PERCENT, PERCENT] else [s[0]]) + Escape(s[1..])
  }

  /** Doubling every percent sign makes any string survive expansion, whatever the home path. */
  lemma {:induction false} ExpandOfEscape(s: bytes, home: bytes)
    ensures Expand(Escape(s), home) == s
  {
    if s != [] {
      ExpandOfEscape(s[1..], home);
      var t := Escape(s);
      if s[0] == PERCENT {
        assert t[0] == PERCENT && t[1] == PERCENT && t[2..] == Escape(s[1..]);
      } else {
        assert t[0] == s[0] && t[1..] == Escape(s[1..]);
      }
    }
  }

  // ---- Expanding piecewise ----

  /** Read left to right in pairs, s ends in a percent sign with no partner. */
  predicate EndsUnpaired(s: bytes) {
    if s == [] then false
    else if s[0] != PERCENT then EndsUnpaired(s[1..])
    else |s| == 1 || EndsUnpaired(s[2..])
  }

  /** Text that may follow an unpaired percent sign without the two of them meaning something new. */
  predicate Harmless(b: bytes, home: bytes) {
    if b == [] then true
    else if b[0] == H then home == [PERCENT, H]
    else if b[0] != PERCENT then true
    else if |b| == 1 then false
    else if b[1] == PERCENT then Harmless(b[2..], home)
    else b[1] == H && home == [H]
  }

  lemma SameTail(x: bytes, y: bytes, tail: bytes)
    ensures x + tail == y + tail <==> x == y
  {
    if x + tail == y + tail {
      assert |x| == |y| && x == (x + tail)[..|x|] && y == (y + tail)[..|y|];
    }
  }

  lemma {:induction false} AfterPercent(b: bytes, home: bytes)
    requires b != []
    ensures Expand([PERCENT] + b, home) == Specifier(b[0], home) + Expand(b[1..], home)
  {
    assert ([PERCENT] + b)[1] == b[0] && ([PERCENT] + b)[2..] == b[1..];
  }

  lemma {:induction false} HarmlessIff(b: bytes, home: bytes)
    ensures Expand([PERCENT] + b, home) == [PERCENT] + Expand(b, home) <==> Harmless(b, home)
    decreases |b|
  {
    if b == [] {
      assert [PERCENT] + b == [PERCENT] && [PERCENT][1..] == [];
    } else {
      AfterPercent(b, home);
      var rest := Expand(b[1..], home);
      if b[0] != PERCENT {
        assert [PERCENT] + Expand(b, home) == [PERCENT, b[0]] + rest;
        SameTail(Specifier(b[0], home), [PERCENT, b[0]], rest);
      } else if |b| == 1 {
        assert b[1..] == [];
        assert |[PERCENT] + Expand(b, home)| == 2 && |Specifier(b[0], home) + rest| == 1;
      } else {
        PercentAfterPercent(b, home);
        if b[1] == PERCENT {
          HarmlessIff(b[2..], home);
          assert b[1..] == [PERCENT] + b[2..];
        }
      }
    }
  }

  /** The step of HarmlessIff for a second percent sign: b is a percent sign and at least one more byte. */
  lemma {:induction false} PercentAfterPercent(b: bytes, home: bytes)
    requires |b| > 1 && b[0] == PERCENT
    ensures Expand([PERCENT] + b, home) == [PERCENT] + Expand(b[1..], home)
    ensures Expand([PERCENT] + b, home) == [PERCENT] + Expand(b, home) <==>
              if b[1] == PERCENT then Expand(b[1..], home) == [PERCENT] + Expand(b[2..], home)
              else b[1] == H && home == [H]
  {
    AfterPercent(b, home);
    var tail := Expand(b[2..], home);
    SameHead([PERCENT], Expand(b[1..], home), Expand(b, home));
    assert Expand(b, home) == Specifier(b[1], home) + tail;
    if b[1] != PERCENT {
      assert b[1..][1..] == b[2..];
      assert Expand(b[1..], home) == [b[1]] + tail;
      SameTail([b[1]], Specifier(b[1], home), tail);
    }
  }

  predicate Distributes(a: bytes, b: bytes, home: bytes) {
    Expand(a + b, home) == Expand(a, home) + Expand(b, home)
  }

  /** A common head h of both sides does not matter. */
  lemma SameAfterHead(h: bytes, whole: bytes, rest: bytes, right: bytes)
    ensures h + whole == (h + rest) + right <==> whole == rest + right
  {
    Associate(h, rest, right);
    SameHead(h, whole, rest + right);
  }

  lemma ConcatFrom(a: bytes, b: bytes, n: nat)
    requires n <= |a|
    ensures (a + b)[n..] == a[n..] + b && forall i :: 0 <= i < n ==> (a + b)[i] == a[i]
  {
  }

  lemma DistributesOne(a: bytes, b: bytes, home: bytes)
    requires a != [] && a[0] != PERCENT
    ensures Distributes(a, b, home) <==> Distributes(a[1..], b, home)
  {
    ConcatFrom(a, b, 1);
    SameAfterHead([a[0]], Expand(a[1..] + b, home), Expand(a[1..], home), Expand(b, home));
  }

  lemma DistributesPair(a: bytes, b: bytes, home: bytes)
    requires |a| > 1 && a[0] == PERCENT
    ensures Distributes(a, b, home) <==> Distributes(a[2..], b, home)
  {
    ConcatFrom(a, b, 2);
    SameAfterHead(Specifier(a[1], home), Expand(a[2..] + b, home), Expand(a[2..], home), Expand(b, home));
  }

  lemma {:induction false} DistributesLast(a: bytes, b: bytes, home: bytes)
    requires a == [PERCENT]
    ensures Distributes(a, b, home) <==> Harmless(b, home)
  {
    HarmlessIff(b, home);
    assert a[1..] == [];
    assert Expand(a, home) == [PERCENT];
  }

  /**
   Expanding a + b is expanding a and b apart if and only if a does not end in an unpaired percent
   sign, or b is harmless after one.
   */
  lemma {:induction false} ExpandDistributesIff(a: bytes, b: bytes, home: bytes)
    ensures Distributes(a, b, home) <==> !EndsUnpaired(a) || Harmless(b, home)
    decreases |a|
  {
    if a == [] {
      assert a + b == b && Expand(a, home) + Expand(b, home) == Expand(b, home);
    } else if a[0] != PERCENT {
      DistributesOne(a, b, home);
      ExpandDistributesIff(a[1..], b, home);
    } else if |a| == 1 {
      DistributesLast(a, b, home);
    } else {
      DistributesPair(a, b, home);
      ExpandDistributesIff(a[2..], b, home);
    }
  }
}
