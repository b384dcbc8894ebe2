/** Inlining the bodies of a task's deliverables into one result under a shared byte budget. */
module InlineArtifacts {
  import opened Options
  import opened Bytes

  const INLINE_CAP: nat := 64 * 1024

  /** body is None when reading the artifact fails; transcript tells step transcripts by name. */
  datatype Artifact = Artifact(id: string, name: string, output: bool, transcript: bool,
                               size: Option<int>, body: Option<bytes>)

  /** What the artifact repository answers; an entry of a listing may be nil. */
  datatype Listing = NoRepository | Failed | Listed(artifacts: seq<Option<Artifact>>)

  datatype ContentError = Unreadable | BudgetExhausted

  datatype Entry = Entry(id: string, name: string, size: Option<int>,
                         content: Option<bytes>, truncated: bool, error: Option<ContentError>)

  // ---- Which artifacts are shown ----

  predicate IsDeliverable(a: Option<Artifact>) {
    a.Some? && a.value.output && !a.value.transcript
  }

  function Deliverables(arts: seq<Option<Artifact>>): seq<Artifact> {
    if |arts| == 0 then []
    else
      var n := |arts| - 1;
      Deliverables(arts[..n]) + if IsDeliverable(arts[n]) then [arts[n].value] else []
  }

  function DeliverablesOf(l: Listing): seq<Artifact> {
    if l.Listed? then Deliverables(l.artifacts) else []
  }

  // ---- Where each body lies in the text of all of them ----

  function BodyOf(a: Artifact): bytes {
    if a.body.Some? then a.body.value else []
  }

  /** All readable bodies, end to end. */
  function Whole(ds: seq<Artifact>): bytes {
    if |ds| == 0 then [] else Whole(ds[..|ds| - 1]) + BodyOf(ds[|ds| - 1])
  }

  function Capped(text: bytes): bytes {
    if |text| > INLINE_CAP then text[..INLINE_CAP] else text
  }

  /** How the deliverable whose body starts at position start of the whole text is shown. */
  function Shown(a: Artifact, start: nat): Entry {
    var plain := Entry(a.id, a.name, a.size, None, false, None);
    match a.body
    case None => plain.(error := Some(Unreadable))
    case Some(b) =>
      if start >= INLINE_CAP then plain.(truncated := true, error := Some(BudgetExhausted))
      else if start + |b| > INLINE_CAP then plain.(content := Some(b[..INLINE_CAP - start]), truncated := true)
      else plain.(content := Some(b))
  }

  /** One entry per deliverable, in order, each cut where the whole text passes the cap. */
  predicate Presents(out: seq<Entry>, ds: seq<Artifact>) {
    |out| == |ds| && forall i :: 0 <= i < |ds| ==> out[i] == Shown(ds[i], |Whole(ds[..i])|)
  }

  function ContentOf(e: Entry): bytes {
    if e.content.Some? then e.content.value else []
  }

  function Inlined(out: seq<Entry>): bytes {
    if |out| == 0 then [] else Inlined(out[..|out| - 1]) + ContentOf(out[|out| - 1])
  }

  function Remaining(ds: seq<Artifact>): (r: nat) {
    if |Whole(ds)| > INLINE_CAP then 0 else INLINE_CAP - |Whole(ds)|
  }

  lemma {:induction false} PresentsMore(out: seq<Entry>, ds: seq<Artifact>, e: Entry, a: Artifact)
    requires Presents(out, ds) && e == Shown(a, |Whole(ds)|)
    ensures Presents(out + [e], ds + [a])
    ensures Whole(ds + [a]) == Whole(ds) + BodyOf(a)
  {
    var more := ds + [a];
    assert more[..|ds|] == ds;
    forall i | 0 <= i < |ds| ensures more[..i] == ds[..i] {}
  }

  lemma DeliverablesStep(arts: seq<Option<Artifact>>, k: nat)
    requires k < |arts|
    ensures Deliverables(arts[..k + 1])
         == if IsDeliverable(arts[k]) then Deliverables(arts[..k]) + [arts[k].value] else Deliverables(arts[..k])
  {
    assert arts[..k + 1][..k] == arts[..k];
  }

  method CompanionInlineArtifacts(l: Listing) returns (inlined: seq<Entry>)
    ensures Presents(inlined, DeliverablesOf(l))
  {
    inlined := [];
    if !l.Listed? { return; }
    var arts := l.artifacts;
    var budget := INLINE_CAP;
    for k := 0 to |arts|
      invariant Presents(inlined, Deliverables(arts[..k]))
      invariant budget == Remaining(Deliverables(arts[..k]))
    {
      ghost var ds := Deliverables(arts[..k]);
      DeliverablesStep(arts, k);
      if arts[k].None? || !arts[k].value.output { continue; }
      var a := arts[k].value;
      if a.transcript { continue; }
      var entry := Entry(a.id, a.name, a.size, None, false, None);
      PresentsMore(inlined, ds, Shown(a, |Whole(ds)|), a);
      if a.body.None? {
        entry := entry.(error := Some(Unreadable));
      } else if budget <= 0 {
        entry := entry.(truncated := true, error := Some(BudgetExhausted));
      } else if |a.body.value| > budget {
        entry := entry.(content := Some(a.body.value[..budget]), truncated := true);
        budget := 0;
      } else {
        entry := entry.(content := a.body);
        budget := budget - |a.body.value|;
      }
      assert entry == Shown(a, |Whole(ds)|);
      inlined := inlined + [entry];
    }
    assert arts[..|arts|] == arts;
  }

  // ---- Every deliverable once ----

  /** The positions of the deliverables in a listing, in order. */
  function Positions(arts: seq<Option<Artifact>>): (r: seq<nat>)
    ensures forall j :: 0 <= j < |r| ==> r[j] < |arts|
  {
    if |arts| == 0 then []
    else
      var n := |arts| - 1;
      Positions(arts[..n]) + if IsDeliverable(arts[n]) then [n] else []
  }

  /** Which artifacts are deliverables: outputs that are there and are no step transcripts. */
  lemma DeliverableIff(a: Option<Artifact>)
    ensures IsDeliverable(a) <==> a != None && a.value.output && !a.value.transcript
  {
  }

  /**
   Entries stand for the deliverables one to one: Positions is strictly increasing, names exactly
   the non-transcript outputs, and entry j carries the identity of the artifact at its position.
   */
  lemma {:induction false} EveryDeliverableOnce(arts: seq<Option<Artifact>>)
    ensures var p := Positions(arts);
            && |p| == |Deliverables(arts)|
            && (forall i, j :: 0 <= i < j < |p| ==> p[i] < p[j])
            && (forall k :: 0 <= k < |arts| ==> (IsDeliverable(arts[k]) <==> k in p))
            && (forall j :: 0 <= j < |p| ==> arts[p[j]] == Some(Deliverables(arts)[j]))
  {
    if |arts| != 0 {
      EveryDeliverableOnce(arts[..|arts| - 1]);
    }
  }

  lemma {:induction false} EntriesKeepIdentity(out: seq<Entry>, arts: seq<Option<Artifact>>, j: nat)
    requires Presents(out, Deliverables(arts)) && j < |out|
    ensures j < |Positions(arts)|
    ensures var a := arts[Positions(arts)[j]];
            a.Some? && out[j].id == a.value.id && out[j].name == a.value.name && out[j].size == a.value.size
  {
    EveryDeliverableOnce(arts);
  }

  // ---- The bytes shown ----

  lemma CappedStep(text: bytes, a: Artifact)
    ensures Capped(text + BodyOf(a)) == Capped(text) + ContentOf(Shown(a, |text|))
  {
  }

  /** The contents shown, end to end, are the first min(64 KiB, total) bytes of the deliverables. */
  lemma {:induction false} InlinedIsPrefix(out: seq<Entry>, ds: seq<Artifact>)
    requires Presents(out, ds)
    ensures Inlined(out) == Capped(Whole(ds))
    ensures Inlined(out) <= Whole(ds) && |Inlined(out)| == (if |Whole(ds)| <= 65536 then |Whole(ds)| else 65536)
  {
    if |ds| != 0 {
      var n := |ds| - 1;
      assert forall i :: 0 <= i < n ==> ds[..n][..i] == ds[..i];
      InlinedIsPrefix(out[..n], ds[..n]);
      CappedStep(Whole(ds[..n]), ds[n]);
    }
  }

  // ---- What the marks say ----

  /** An entry without marks carries its whole body, and exactly these entries do. */
  lemma UnmarkedIff(out: seq<Entry>, ds: seq<Artifact>, i: nat)
    requires Presents(out, ds) && i < |ds|
    ensures !out[i].truncated && out[i].error.None? <==> out[i].content.Some? && out[i].content == ds[i].body
    ensures !out[i].truncated && out[i].error.None? <==>
              ds[i].body.Some? && |Whole(ds[..i])| < INLINE_CAP && |Whole(ds[..i + 1])| <= INLINE_CAP
    ensures out[i].error == Some(Unreadable) <==> ds[i].body.None?
  {
    assert ds[..i + 1][..i] == ds[..i];
  }

  /** An entry is marked truncated with nothing missing iff its body is empty and the bodies before it reach the cap. */
  lemma TruncatedForNothingIff(out: seq<Entry>, ds: seq<Artifact>, i: nat)
    requires Presents(out, ds) && i < |ds|
    ensures out[i].truncated && ContentOf(out[i]) == BodyOf(ds[i]) <==>
              ds[i].body == Some([]) && |Whole(ds[..i])| >= INLINE_CAP
  {
    var start := |Whole(ds[..i])|;
    assert out[i] == Shown(ds[i], start);
    if ds[i].body.Some? && start < INLINE_CAP < start + |ds[i].body.value| {
      assert |ContentOf(out[i])| < |BodyOf(ds[i])|;
    }
  }

  /** A 64 KiB deliverable followed by an empty one: the second is marked truncated and misses nothing. */
  lemma EmptyMarkedTruncated() returns (ds: seq<Artifact>, out: seq<Entry>)
    ensures Presents(out, ds) && |ds| == 2 && ds[1].body == Some([])
    ensures out[1].truncated && ContentOf(out[1]) == BodyOf(ds[1])
  {
    var full := seq(INLINE_CAP, i => SPACE);
    var first := Artifact("1", "full", true, false, None, Some(full));
    var second := Artifact("2", "empty", true, false, None, Some([]));
    ds, out := [first, second], [Shown(first, 0), Shown(second, INLINE_CAP)];
    assert ds[..0] == [] && ds[..1] == [first] && [first][..0] == [];
    assert Whole([]) == [] && Whole([first]) == Whole([]) + full;
    TruncatedForNothingIff(out, ds, 1);
  }

  lemma {:induction false} WholeGrows(ds: seq<Artifact>, i: nat)
    requires i <= |ds|
    ensures |Whole(ds[..i])| <= |Whole(ds)|
    decreases |ds|
  {
    if i < |ds| {
      WholeGrows(ds[..|ds| - 1], i);
      assert ds[..|ds| - 1][..i] == ds[..i];
    } else {
      assert ds[..i] == ds;
    }
  }

  lemma WholeStep(ds: seq<Artifact>, i: nat)
    requires i < |ds|
    ensures |Whole(ds[..i + 1])| == |Whole(ds[..i])| + |BodyOf(ds[i])|
  {
    assert ds[..i + 1][..i] == ds[..i];
  }

  /** The deliverable in whose body the whole text passes the cap. */
  lemma {:induction false} Crossing(ds: seq<Artifact>, k: nat) returns (i: nat)
    requires k <= |ds| && |Whole(ds[..k])| > INLINE_CAP
    ensures i < k && |Whole(ds[..i])| <= INLINE_CAP < |Whole(ds[..i])| + |BodyOf(ds[i])|
  {
    WholeStep(ds, k - 1);
    if |Whole(ds[..k - 1])| > INLINE_CAP {
      i := Crossing(ds, k - 1);
    } else {
      i := k - 1;
    }
  }

  lemma {:induction false} CutOnlyEmpty(out: seq<Entry>, ds: seq<Artifact>, i: nat)
    requires Presents(out, ds) && i < |ds| && out[i].truncated && |Whole(ds)| <= INLINE_CAP
    ensures |BodyOf(ds[i])| == 0
  {
    WholeStep(ds, i);
    WholeGrows(ds, i + 1);
  }

  /**
   Nothing was left out if and only if every entry marked truncated had an empty body: past an
   exhausted budget an empty deliverable is marked although it loses nothing.
   */
  lemma {:induction false} CompleteIff(out: seq<Entry>, ds: seq<Artifact>)
    requires Presents(out, ds)
    ensures Inlined(out) == Whole(ds) <==>
            forall i :: 0 <= i < |ds| && out[i].truncated ==> |BodyOf(ds[i])| == 0
    ensures Inlined(out) == Whole(ds) <==> |Whole(ds)| <= 65536
  {
    InlinedIsPrefix(out, ds);
    if |Whole(ds)| > INLINE_CAP {
      assert ds[..|ds|] == ds;
      var i := Crossing(ds, |ds|);
      assert out[i].truncated && |BodyOf(ds[i])| != 0;
    } else {
      forall i | 0 <= i < |ds| && out[i].truncated ensures |BodyOf(ds[i])| == 0 { CutOnlyEmpty(out, ds, i); }
    }
  }
}
