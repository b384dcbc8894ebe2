/**
 The doctor check that finds workflow steps whose failures end in a COMPLETED
 terminal. The code follows on_success edges for a bounded number of hops; here
 that walk is compared with the same question asked without any bound.
 */
module WorkflowMasking {
  type Id = string

  datatype Step = Step(onSuccess: Id, onFail: Id)
  datatype Terminal = Terminal(status: string, recovery: bool)
  datatype Workflow = Workflow(steps: map<Id, Step>, terminals: map<Id, Terminal>)

  function Upper(c: char): char {
    if 'a' <= c <= 'z' then (c as int - 32) as char else c
  }

  /** strings.EqualFold against an upper-case word with no letter that folds outside ASCII. */
  predicate EqualFold(s: string, upper: string) {
    |s| == |upper| && forall i :: 0 <= i < |s| ==> Upper(s[i]) == upper[i]
  }

  /** Exactly the spellings of COMPLETED in any case count: each letter is the upper-case one, or 32 above it. */
  lemma CompletedInAnyCase(s: string)
    ensures EqualFold(s, "COMPLETED") <==>
            |s| == 9 && forall i :: 0 <= i < 9 ==> s[i] == "COMPLETED"[i] || s[i] as int == "COMPLETED"[i] as int + 32
  {
    assert forall i :: 0 <= i < 9 ==> 'A' <= "COMPLETED"[i] <= 'Z';
  }

  /** Ending at this terminal turns a failure into a success. */
  predicate Masking(t: Terminal) {
    !t.recovery && EqualFold(t.status, "COMPLETED")
  }

  // ---- The question, with no bound on the hops ----

  datatype Place = At(id: Id) | Nowhere

  /** One hop along on_success; terminals, unknown ids and steps without on_success have none. */
  function Next(wf: Workflow, p: Place): Place {
    if p.Nowhere? || p.id in wf.terminals || p.id !in wf.steps || wf.steps[p.id].onSuccess == "" then Nowhere
    else At(wf.steps[p.id].onSuccess)
  }

  function After(wf: Workflow, p: Place, n: nat): Place {
    if n == 0 then p else Next(wf, After(wf, p, n - 1))
  }

  /** A place masks if it is a terminal, not a recovery one, with that status in some case. */
  lemma MaskedPlace(wf: Workflow, id: Id)
    ensures EndsMasked(wf, At(id)) <==>
            id in wf.terminals && !wf.terminals[id].recovery && EqualFold(wf.terminals[id].status, "COMPLETED")
  {
  }

  predicate EndsMasked(wf: Workflow, p: Place) {
    p.At? && p.id in wf.terminals && Masking(wf.terminals[p.id])
  }

  /** Some number of hops from target reaches a masking terminal. */
  ghost predicate Masked(wf: Workflow, target: Id) {
    exists n: nat :: EndsMasked(wf, After(wf, At(target), n))
  }

  // ---- The bounded walk ----

  /** What the loop computes with `hops` iterations left. */
  function Walk(wf: Workflow, cur: Id, hops: nat): (Id, bool)
    decreases hops
  {
    if hops == 0 then ("", false)
    else if cur in wf.terminals then
      if wf.terminals[cur].recovery then ("", false) else (cur, EqualFold(wf.terminals[cur].status, "COMPLETED"))
    else if cur !in wf.steps || wf.steps[cur].onSuccess == "" then ("", false)
    else Walk(wf, wf.steps[cur].onSuccess, hops - 1)
  }

  method ResolveOnFailTerminal(wf: Workflow, target: Id, maxHops: nat) returns (terminal: Id, masked: bool)
    ensures (terminal, masked) == Walk(wf, target, maxHops)
  {
    var cur := target;
    for i := 0 to maxHops
      invariant Walk(wf, cur, maxHops - i) == Walk(wf, target, maxHops)
    {
      if cur in wf.terminals {
        if wf.terminals[cur].recovery {
          return "", false;
        }
        return cur, EqualFold(wf.terminals[cur].status, "COMPLETED");
      }
      if cur !in wf.steps || wf.steps[cur].onSuccess == "" {
        return "", false;
      }
      cur := wf.steps[cur].onSuccess;
    }
    return "", false;
  }

  // ---- The walk finds exactly what is within its reach ----

  lemma {:induction false} AfterShift(wf: Workflow, p: Place, i: nat, k: nat)
    ensures After(wf, p, i + k) == After(wf, After(wf, p, i), k)
  {
    if k > 0 {
      AfterShift(wf, p, i, k - 1);
    }
  }

  lemma {:induction false} AfterFirst(wf: Workflow, p: Place, n: nat)
    ensures After(wf, p, n + 1) == After(wf, Next(wf, p), n)
  {
    assert After(wf, p, 1) == Next(wf, After(wf, p, 0));
    AfterShift(wf, p, 1, n);
  }

  /** Once there is no way on, the walk is nowhere for good. */
  lemma {:induction false} StuckAfter(wf: Workflow, p: Place, n: nat)
    requires Next(wf, p) == Nowhere && n > 0
    ensures After(wf, p, n) == Nowhere
  {
    if n == 1 {
      assert After(wf, p, 0) == p;
    } else {
      StuckAfter(wf, p, n - 1);
    }
  }

  lemma {:induction false} WalkSound(wf: Workflow, cur: Id, hops: nat) returns (n: nat)
    requires Walk(wf, cur, hops).1
    ensures n < hops && After(wf, At(cur), n) == At(Walk(wf, cur, hops).0) && EndsMasked(wf, After(wf, At(cur), n))
    decreases hops
  {
    if cur in wf.terminals {
      n := 0;
    } else {
      n := WalkSound(wf, wf.steps[cur].onSuccess, hops - 1);
      AfterFirst(wf, At(cur), n);
      n := n + 1;
    }
  }

  lemma {:induction false} WalkComplete(wf: Workflow, cur: Id, hops: nat, n: nat)
    requires n < hops && EndsMasked(wf, After(wf, At(cur), n))
    ensures Walk(wf, cur, hops) == (After(wf, At(cur), n).id, true)
    decreases hops
  {
    if n > 0 {
      AfterFirst(wf, At(cur), n - 1);
      if Next(wf, At(cur)) == Nowhere { StuckAfter(wf, At(cur), n); }
      WalkComplete(wf, wf.steps[cur].onSuccess, hops - 1, n - 1);
    }
  }

  // ---- Pigeonhole: len(steps) + 1 hops are always enough ----

  predicate DeadEnd(wf: Workflow, p: Place) {
    p.At? && Next(wf, p) == Nowhere
  }

  /** A walk that ends after n hops was at a step before each of them. */
  lemma {:induction false} OnTheWay(wf: Workflow, p: Place, n: nat, i: nat)
    requires DeadEnd(wf, After(wf, p, n)) && i < n
    ensures After(wf, p, i).At? && After(wf, p, i).id in wf.steps
  {
    AfterShift(wf, p, i, n - i);
    if Next(wf, After(wf, p, i)) == Nowhere { StuckAfter(wf, After(wf, p, i), n - i); }
  }

  /** A walk ends once. */
  lemma {:induction false} EndsOnce(wf: Workflow, p: Place, early: nat, n: nat)
    requires DeadEnd(wf, After(wf, p, early)) && early < n
    ensures After(wf, p, n) == Nowhere
  {
    AfterShift(wf, p, early, n - early);
    StuckAfter(wf, After(wf, p, early), n - early);
  }

  lemma SameFuture(wf: Workflow, p: Place, i: nat, j: nat, more: nat)
    requires After(wf, p, i) == After(wf, p, j)
    ensures After(wf, p, i + more) == After(wf, p, j + more)
  {
    AfterShift(wf, p, i, more);
    AfterShift(wf, p, j, more);
  }

  /** A walk that ends after n hops was at no place twice. */
  lemma {:induction false} NoRepeat(wf: Workflow, p: Place, n: nat, i: nat, j: nat)
    requires DeadEnd(wf, After(wf, p, n)) && i < j <= n
    ensures After(wf, p, i) != After(wf, p, j)
  {
    if After(wf, p, i) == After(wf, p, j) {
      SameFuture(wf, p, i, j, n - j);
      EndsOnce(wf, p, i + (n - j), n);
    }
  }

  function IdOf(p: Place): Id {
    if p.At? then p.id else ""
  }

  lemma {:induction false} Pigeonhole<T>(s: seq<T>, holes: set<T>)
    requires forall i, j :: 0 <= i < j < |s| ==> s[i] != s[j]
    requires forall i :: 0 <= i < |s| ==> s[i] in holes
    ensures |s| <= |holes|
  {
    if |s| > 0 {
      Pigeonhole(s[..|s| - 1], holes - {s[|s| - 1]});
    }
  }

  lemma {:induction false} EndsInTime(wf: Workflow, p: Place, n: nat)
    requires DeadEnd(wf, After(wf, p, n))
    ensures n <= |wf.steps|
  {
    var ids := seq(n, i requires 0 <= i < n => IdOf(After(wf, p, i)));
    forall i | 0 <= i < n ensures After(wf, p, i).At? && ids[i] in wf.steps { OnTheWay(wf, p, n, i); }
    forall i, j | 0 <= i < j < n ensures ids[i] != ids[j] { NoRepeat(wf, p, n, i, j); }
    Pigeonhole(ids, wf.steps.Keys);
  }

  /** The bounded walk answers the unbounded question, on every workflow, cyclic or broken ones included. */
  lemma FuelSuffices(wf: Workflow, target: Id)
    ensures Walk(wf, target, |wf.steps| + 1).1 <==> Masked(wf, target)
    ensures forall n: nat :: EndsMasked(wf, After(wf, At(target), n)) ==>
              After(wf, At(target), n) == At(Walk(wf, target, |wf.steps| + 1).0)
  {
    if Walk(wf, target, |wf.steps| + 1).1 {
      var n := WalkSound(wf, target, |wf.steps| + 1);
    }
    forall n: nat | EndsMasked(wf, After(wf, At(target), n))
      ensures Walk(wf, target, |wf.steps| + 1) == (After(wf, At(target), n).id, true)
    {
      EndsInTime(wf, At(target), n);
      WalkComplete(wf, target, |wf.steps| + 1, n);
    }
  }

  // ---- The scan ----

  datatype Finding = Finding(step: Id, terminal: Id)

  ghost predicate Reportable(wf: Workflow, id: Id)
    requires id in wf.steps
  {
    wf.steps[id].onFail != "" && Masked(wf, wf.steps[id].onFail)
  }

  /** Some number of hops from one id leads to the other. */
  ghost predicate Reaches(wf: Workflow, from: Id, to: Id) {
    exists n: nat :: After(wf, At(from), n) == At(to)
  }

  /** The finding names a masking terminal that the failures of its own step end in. */
  ghost predicate Justified(wf: Workflow, f: Finding) {
    && f.step in wf.steps && wf.steps[f.step].onFail != ""
    && EndsMasked(wf, At(f.terminal)) && Reaches(wf, wf.steps[f.step].onFail, f.terminal)
  }

  ghost predicate AllJustified(wf: Workflow, problems: seq<Finding>) {
    forall i :: 0 <= i < |problems| ==> Justified(wf, problems[i])
  }

  function Reported(problems: seq<Finding>): set<Id> {
    set f | f in problems :: f.step
  }

  lemma ReportedOneMore(problems: seq<Finding>, f: Finding)
    ensures Reported(problems + [f]) == Reported(problems) + {f.step}
    ensures f.step !in Reported(problems) ==> |Reported(problems + [f])| == |Reported(problems)| + 1
  {
  }

  /** The steps to report among those not in todo. */
  ghost function Expected(wf: Workflow, todo: set<Id>): set<Id> {
    set id | id in wf.steps && id !in todo && Reportable(wf, id)
  }

  lemma ExpectedOneFewer(wf: Workflow, todo: set<Id>, id: Id)
    requires id in todo && id in wf.steps
    ensures id !in Expected(wf, todo)
    ensures Expected(wf, todo - {id}) == Expected(wf, todo) + if Reportable(wf, id) then {id} else {}
  {
  }

  /** The steps a scan that allows each walk so many iterations reports. */
  function ReportedWith(wf: Workflow, hops: nat): set<Id> {
    set id | id in wf.steps && wf.steps[id].onFail != "" && Walk(wf, wf.steps[id].onFail, hops).1
  }

  /** Reporting by the bounded walk with len(steps)+1 iterations is reporting by the unbounded question. */
  lemma ScanIsExact(wf: Workflow)
    ensures ReportedWith(wf, |wf.steps| + 1) == Expected(wf, {})
  {
    forall id | id in wf.steps ensures Walk(wf, wf.steps[id].onFail, |wf.steps| + 1).1 <==> Masked(wf, wf.steps[id].onFail) {
      FuelSuffices(wf, wf.steps[id].onFail);
    }
  }

  method CheckStep(wf: Workflow, id: Id) returns (target: Id, masked: bool)
    requires id in wf.steps
    ensures masked <==> Reportable(wf, id)
    ensures masked ==> Justified(wf, Finding(id, target))
  {
    if wf.steps[id].onFail == "" {
      return "", false;
    }
    target, masked := ResolveOnFailTerminal(wf, wf.steps[id].onFail, |wf.steps| + 1);
    FuelSuffices(wf, wf.steps[id].onFail);
    if masked {
      ghost var n := WalkSound(wf, wf.steps[id].onFail, |wf.steps| + 1);
    }
  }

  /** The scan with the steps in todo left. */
  ghost predicate Scanned(wf: Workflow, todo: set<Id>, problems: seq<Finding>) {
    Reported(problems) == Expected(wf, todo) && |Reported(problems)| == |problems| && AllJustified(wf, problems)
  }

  lemma ScanStep(wf: Workflow, todo: set<Id>, problems: seq<Finding>, f: Finding)
    requires Scanned(wf, todo, problems) && f.step in todo && f.step in wf.steps
    ensures !Reportable(wf, f.step) ==> Scanned(wf, todo - {f.step}, problems)
    ensures Reportable(wf, f.step) && Justified(wf, f) ==> Scanned(wf, todo - {f.step}, problems + [f])
  {
    ExpectedOneFewer(wf, todo, f.step);
    ReportedOneMore(problems, f);
  }

  /**
   Exactly the steps with an on_fail whose failures are masked are reported, each once, with a masking
   terminal that following on_success from that step's on_fail reaches.
   */
  method ScanWorkflowOnFail(wf: Workflow) returns (problems: seq<Finding>)
    ensures Reported(problems) == Expected(wf, {})
    ensures |Reported(problems)| == |problems|
    ensures AllJustified(wf, problems)
  {
    problems := [];
    var todo := wf.steps.Keys;
    while todo != {}
      invariant todo <= wf.steps.Keys && Scanned(wf, todo, problems)
      decreases todo
    {
      var id :| id in todo;
      var target, masked := CheckStep(wf, id);
      ScanStep(wf, todo, problems, Finding(id, target));
      todo := todo - {id};
      if masked {
        problems := problems + [Finding(id, target)];
      }
    }
  }

  // ---- One hop fewer is not enough ----

  function Name(n: nat): Id {
    if n == 0 then "s" else Name(n - 1) + "s"
  }

  lemma {:induction false} NameLength(n: nat)
    ensures |Name(n)| == n + 1
  {
    if n > 0 { NameLength(n - 1); }
  }

  function ChainStep(k: nat): Step {
    Step(Name(k + 1), if k == 0 then Name(0) else "")
  }

  function ChainSteps(n: nat): map<Id, Step> {
    if n == 0 then map[] else ChainSteps(n - 1)[Name(n - 1) := ChainStep(n - 1)]
  }

  /** n steps in a row, the last one succeeding into a COMPLETED terminal; the first one fails into itself. */
  function Chain(n: nat): Workflow {
    Workflow(ChainSteps(n), map[Name(n) := Terminal("COMPLETED", false)])
  }

  lemma {:induction false} ChainShape(n: nat, k: nat)
    ensures |ChainSteps(n)| == n
    ensures k < n ==> Name(k) in ChainSteps(n) && ChainSteps(n)[Name(k)] == ChainStep(k)
    ensures k >= n ==> Name(k) !in ChainSteps(n)
  {
    NameLength(k);
    if n > 0 {
      NameLength(n - 1);
      ChainShape(n - 1, k);
      ChainShape(n - 1, n - 1);
    }
  }

  lemma {:induction false} ChainIds(n: nat, id: Id) returns (k: nat)
    requires id in ChainSteps(n)
    ensures k < n && id == Name(k)
  {
    if id == Name(n - 1) {
      k := n - 1;
    } else {
      k := ChainIds(n - 1, id);
    }
  }

  /** Each step of the chain leads to the next, and is no terminal. */
  lemma ChainNext(n: nat, k: nat)
    requires k < n
    ensures Name(k) in Chain(n).steps && Chain(n).steps[Name(k)] == ChainStep(k) && Name(k) !in Chain(n).terminals
    ensures ChainStep(k).onSuccess == Name(k + 1) != ""
  {
    ChainShape(n, k);
    NameLength(k);
    NameLength(k + 1);
    NameLength(n);
  }

  lemma {:induction false} ChainAfter(n: nat, k: nat)
    requires k <= n
    ensures After(Chain(n), At(Name(0)), k) == At(Name(k))
  {
    if k > 0 {
      ChainAfter(n, k - 1);
      ChainNext(n, k - 1);
    }
  }

  lemma {:induction false} ChainWalk(n: nat, k: nat, hops: nat)
    requires k + hops == n
    ensures Walk(Chain(n), Name(k), hops) == ("", false)
    decreases hops
  {
    if hops > 0 {
      ChainNext(n, k);
      ChainWalk(n, k + 1, hops - 1);
    }
  }

  /** For every number of steps there is a workflow that a walk of len(steps) iterations gets wrong. */
  lemma {:induction false} FuelIsTight(n: nat)
    ensures |Chain(n).steps| == n && Masked(Chain(n), Name(0)) && !Walk(Chain(n), Name(0), n).1
  {
    ChainShape(n, 0);
    ChainAfter(n, n);
    assert EndsMasked(Chain(n), After(Chain(n), At(Name(0)), n));
    ChainWalk(n, 0, n);
  }

  /** So for every positive number of steps a scan with one iteration fewer misses a masked step: it reports nothing. */
  lemma ScanFuelIsTight(n: nat)
    requires n > 0
    ensures |Chain(n).steps| == n && Expected(Chain(n), {}) == {Name(0)} && ReportedWith(Chain(n), n) == {}
  {
    FuelIsTight(n);
    ChainNext(n, 0);
    NameLength(0);
    forall id | id in Chain(n).steps && Chain(n).steps[id].onFail != "" ensures id == Name(0) {
      var k := ChainIds(n, id);
      ChainNext(n, k);
    }
  }
}
