/**
 The per-project workspace lock protocol: git fetches, git pushes and executor
 mutations, any number of each, over any number of projects.

 A run is a sequence of steps applied to the initial state. A step that is not
 enabled changes nothing, so the step sequences are exactly the interleavings.
 */
module WorkspaceLock {
  /** A lock key; the empty project id is the key that is never locked. */
  datatype Project = NoProject | Named(id: nat)
  type Actor = nat
  type Tree = nat // stands for one project's workspace contents

  datatype Kind = Fetch | Push | Mutation
  datatype Pc = Waiting | Holding | Executing | Returning | Finished

  /** One lock user. `seen` records every tree a fetch's subprocess has read. */
  datatype Request = Request(kind: Kind, project: Project, pc: Pc, seen: seq<Tree>)

  datatype Holders = Holders(writers: set<Actor>, readers: set<Actor>)

  /** `published` is each project's tree as its last finished writer left it. */
  datatype State = State(
    locks: map<Project, Holders>,
    tree: map<Project, Tree>,
    published: map<Project, Tree>,
    active: map<Project, nat>,
    requests: map<Actor, Request>)

  datatype Action =
    | Acquire
    | Observe
    | Gate(countFails: bool, guardFails: bool)
    | Write(tree: Tree)
    | Release

  datatype Step =
    | Arrive(actor: Actor, kind: Kind, project: Project)
    | Act(actor: Actor, action: Action)
    | LeaseTask(project: Project)
    | EndTask(project: Project)

  const INITIAL := State(map[], map[], map[], map[], map[])

  /** Locks are created on first use: an absent entry is a free lock. */
  function HoldersOf(s: State, p: Project): Holders {
    if p in s.locks then s.locks[p] else Holders({}, {})
  }

  function Lookup<V>(m: map<Project, V>, p: Project, default: V): V {
    if p in m then m[p] else default
  }

  function TreeOf(s: State, p: Project): Tree {
    Lookup(s.tree, p, 0)
  }

  function PublishedOf(s: State, p: Project): Tree {
    Lookup(s.published, p, 0)
  }

  predicate Free(h: Holders) {
    h.writers == {} && h.readers == {}
  }

  /** Inside the critical section: between taking the lock and the deferred unlock. */
  predicate InSection(r: Request) {
    r.pc == Holding || r.pc == Executing || r.pc == Returning
  }

  predicate CanWrite(r: Request) {
    (r.kind == Push && r.pc == Executing) || (r.kind == Mutation && r.pc == Holding)
  }

  predicate Enabled(s: State, r: Request, action: Action) {
    match action
    case Acquire =>
      && r.pc == Waiting
      && (r.project == NoProject
          || if r.kind == Fetch then HoldersOf(s, r.project).writers == {} else Free(HoldersOf(s, r.project)))
    case Observe => r.kind == Fetch && r.pc == Holding
    case Gate(_, _) => r.kind == Push && r.pc == Holding
    case Write(_) => CanWrite(r)
    case Release => InSection(r) && !(r.kind == Push && r.pc == Holding)
  }

  /** The gate refuses a push when its project has an active task (if the count could be read) or a guard fails. */
  predicate Refused(s: State, r: Request, action: Action)
    requires action.Gate?
  {
    (!action.countFails && Lookup(s.active, r.project, 0) > 0) || action.guardFails
  }

  function RequestAfter(s: State, r: Request, action: Action): Request {
    match action
    case Acquire => r.(pc := Holding)
    case Observe => r.(seen := r.seen + [TreeOf(s, r.project)])
    case Gate(_, _) => r.(pc := if Refused(s, r, action) then Returning else Executing)
    case Write(_) => r
    case Release => r.(pc := Finished)
  }

  function HoldersAfter(h: Holders, a: Actor, kind: Kind, action: Action): Holders {
    match action
    case Acquire => if kind == Fetch then h.(readers := h.readers + {a}) else h.(writers := h.writers + {a})
    case Release => Holders(h.writers - {a}, h.readers - {a})
    case _ => h
  }

  function ApplyAction(s: State, a: Actor, r: Request, action: Action): State {
    var p := r.project;
    State(
      if p == NoProject then s.locks else s.locks[p := HoldersAfter(HoldersOf(s, p), a, r.kind, action)],
      if action.Write? then s.tree[p := action.tree] else s.tree,
      if action.Release? && r.kind != Fetch then s.published[p := TreeOf(s, p)] else s.published,
      s.active,
      s.requests[a := RequestAfter(s, r, action)])
  }

  function Apply(s: State, step: Step): State {
    match step
    case Arrive(a, kind, p) =>
      // The git routes answer 404 for an empty project id before any lock is taken.
      var pc := if kind != Mutation && p == NoProject then Finished else Waiting;
      if a in s.requests then s else s.(requests := s.requests[a := Request(kind, p, pc, [])])
    case Act(a, action) =>
      if a in s.requests && Enabled(s, s.requests[a], action) then ApplyAction(s, a, s.requests[a], action) else s
    case LeaseTask(p) => s.(active := s.active[p := Lookup(s.active, p, 0) + 1])
    case EndTask(p) => if Lookup(s.active, p, 0) > 0 then s.(active := s.active[p := Lookup(s.active, p, 0) - 1]) else s
  }

  function Run(s: State, steps: seq<Step>): State {
    if steps == [] then s else Apply(Run(s, steps[..|steps| - 1]), steps[|steps| - 1])
  }

  // ---- The invariant ----

  ghost predicate LockShape(h: Holders) {
    && (h.writers == {} || h.readers == {})
    && (forall x, y :: x in h.writers && y in h.writers ==> x == y)
  }

  predicate Inside(s: State, p: Project, a: Actor) {
    p != NoProject && a in s.requests && s.requests[a].project == p && InSection(s.requests[a])
  }

  /** Who is registered in a lock, and who is inside a critical section, are the same thing. */
  ghost predicate HoldersMatch(s: State, p: Project, a: Actor) {
    && (a in HoldersOf(s, p).writers <==> Inside(s, p, a) && s.requests[a].kind != Fetch)
    && (a in HoldersOf(s, p).readers <==> Inside(s, p, a) && s.requests[a].kind == Fetch)
  }

  ghost predicate ProjectInv(s: State, p: Project) {
    && LockShape(HoldersOf(s, p))
    && (p != NoProject && HoldersOf(s, p).writers == {} ==> TreeOf(s, p) == PublishedOf(s, p))
  }

  /** A fetch inside its section has only ever seen the tree there is now; a finished one saw one tree. */
  ghost predicate SawOneTree(r: Request, now: Tree) {
    && (r.kind == Fetch && r.pc != Finished ==> r.project != NoProject)
    && (!InSection(r) && r.pc != Finished ==> r.seen == [])
    && (r.seen != [] ==> r.kind == Fetch && forall i :: 0 <= i < |r.seen| ==> r.seen[i] == r.seen[0])
    && (r.seen != [] && InSection(r) ==> r.seen[0] == now)
  }

  ghost predicate Inv(s: State) {
    && (forall p :: ProjectInv(s, p))
    && (forall p, a :: HoldersMatch(s, p, a))
    && (forall a :: a in s.requests ==> SawOneTree(s.requests[a], TreeOf(s, s.requests[a].project)))
  }

  lemma ActionKeepsProjectInv(s: State, a: Actor, action: Action, p: Project)
    requires Inv(s) && a in s.requests && Enabled(s, s.requests[a], action)
    ensures ProjectInv(ApplyAction(s, a, s.requests[a], action), p)
  {
    assert ProjectInv(s, p) && HoldersMatch(s, p, a);
  }

  lemma ActionKeepsHoldersMatch(s: State, a: Actor, action: Action, p: Project, b: Actor)
    requires Inv(s) && a in s.requests && Enabled(s, s.requests[a], action)
    ensures HoldersMatch(ApplyAction(s, a, s.requests[a], action), p, b)
  {
    assert HoldersMatch(s, p, b) && HoldersMatch(s, s.requests[a].project, b);
  }

  /** Only the single writer of a project can change its tree, and then no fetch is inside. */
  lemma ActionKeepsSawOneTree(s: State, a: Actor, action: Action, b: Actor)
    requires Inv(s) && a in s.requests && Enabled(s, s.requests[a], action)
    requires b in s.requests
    ensures var s' := ApplyAction(s, a, s.requests[a], action);
            SawOneTree(s'.requests[b], TreeOf(s', s'.requests[b].project))
  {
    var p := s.requests[a].project;
    assert SawOneTree(s.requests[b], TreeOf(s, s.requests[b].project));
    assert ProjectInv(s, p) && HoldersMatch(s, p, a) && HoldersMatch(s, p, b);
  }

  lemma ActionKeepsInv(s: State, a: Actor, action: Action)
    requires Inv(s) && a in s.requests && Enabled(s, s.requests[a], action)
    ensures Inv(ApplyAction(s, a, s.requests[a], action))
  {
    var s' := ApplyAction(s, a, s.requests[a], action);
    forall p ensures ProjectInv(s', p) { ActionKeepsProjectInv(s, a, action, p); }
    forall p, b ensures HoldersMatch(s', p, b) { ActionKeepsHoldersMatch(s, a, action, p, b); }
    forall b | b in s'.requests ensures SawOneTree(s'.requests[b], TreeOf(s', s'.requests[b].project)) {
      ActionKeepsSawOneTree(s, a, action, b);
    }
  }

  lemma ArrivalKeepsHolders(s: State, step: Step, p: Project, b: Actor)
    requires Inv(s) && step.Arrive?
    ensures HoldersMatch(Apply(s, step), p, b)
  {
    assert HoldersMatch(s, p, b) && HoldersMatch(s, p, step.actor);
  }

  lemma ArrivalKeepsSawOneTree(s: State, step: Step, b: Actor)
    requires Inv(s) && step.Arrive? && b in Apply(s, step).requests
    ensures var s' := Apply(s, step);
            SawOneTree(s'.requests[b], TreeOf(s', s'.requests[b].project))
  {
    if b in s.requests { assert SawOneTree(s.requests[b], TreeOf(s, s.requests[b].project)); }
  }

  lemma ArrivalKeepsInv(s: State, step: Step)
    requires Inv(s) && step.Arrive?
    ensures Inv(Apply(s, step))
  {
    var s' := Apply(s, step);
    forall p ensures ProjectInv(s', p) { assert ProjectInv(s, p); }
    forall p, b ensures HoldersMatch(s', p, b) { ArrivalKeepsHolders(s, step, p, b); }
    forall b | b in s'.requests ensures SawOneTree(s'.requests[b], TreeOf(s', s'.requests[b].project)) {
      ArrivalKeepsSawOneTree(s, step, b);
    }
  }

  lemma TaskCountKeepsInv(s: State, active: map<Project, nat>)
    requires Inv(s)
    ensures Inv(s.(active := active))
  {
    var s' := s.(active := active);
    forall p ensures ProjectInv(s', p) { assert ProjectInv(s, p); }
    forall p, b ensures HoldersMatch(s', p, b) { assert HoldersMatch(s, p, b); }
  }

  lemma StepKeepsInv(s: State, step: Step)
    requires Inv(s)
    ensures Inv(Apply(s, step))
  {
    match step
    case Arrive(_, _, _) => ArrivalKeepsInv(s, step);
    case Act(a, action) => if a in s.requests && Enabled(s, s.requests[a], action) { ActionKeepsInv(s, a, action); }
    case _ => TaskCountKeepsInv(s, Apply(s, step).active);
  }

  lemma {:induction false} RunKeepsInv(s: State, steps: seq<Step>)
    requires Inv(s)
    ensures Inv(Run(s, steps))
  {
    if steps != [] {
      RunKeepsInv(s, steps[..|steps| - 1]);
      StepKeepsInv(Run(s, steps[..|steps| - 1]), steps[|steps| - 1]);
    }
  }

  // ---- Main results ----

  /** In every reachable state a project has at most one writer, and no reader beside a writer. */
  lemma {:induction false} MutualExclusion(steps: seq<Step>, p: Project, a: Actor, b: Actor)
    ensures var s := Run(INITIAL, steps);
            Inside(s, p, a) && Inside(s, p, b) && a != b ==> s.requests[a].kind == Fetch && s.requests[b].kind == Fetch
  {
    RunKeepsInv(INITIAL, steps);
    var s := Run(INITIAL, steps);
    assert ProjectInv(s, p) && HoldersMatch(s, p, a) && HoldersMatch(s, p, b);
  }

  lemma {:induction false} RunExtends(s: State, steps: seq<Step>, step: Step)
    ensures Run(s, steps + [step]) == Apply(Run(s, steps), step)
  {
    assert (steps + [step])[..|steps|] == steps;
  }

  /** After these steps two different mutations of p are both inside their sections, free to write. */
  ghost predicate BothMutating(steps: seq<Step>, p: Project, a: Actor, b: Actor) {
    var s := Run(INITIAL, steps);
    && a != b && a in s.requests && b in s.requests
    && s.requests[a].kind == Mutation && s.requests[a].project == p && InSection(s.requests[a])
    && s.requests[b].kind == Mutation && s.requests[b].project == p && InSection(s.requests[b])
  }

  /** Tasks without a project do not exclude each other: a run in which two of them can write at once. */
  lemma EmptyKeyDoesNotExclude() returns (steps: seq<Step>)
    ensures BothMutating(steps, NoProject, 0, 1)
    ensures CanWrite(Run(INITIAL, steps).requests[0]) && CanWrite(Run(INITIAL, steps).requests[1])
  {
    RunExtends(INITIAL, [], Arrive(0, Mutation, NoProject));
    steps := [] + [Arrive(0, Mutation, NoProject)];
    RunExtends(INITIAL, steps, Arrive(1, Mutation, NoProject));
    steps := steps + [Arrive(1, Mutation, NoProject)];
    RunExtends(INITIAL, steps, Act(0, Acquire));
    steps := steps + [Act(0, Acquire)];
    RunExtends(INITIAL, steps, Act(1, Acquire));
    steps := steps + [Act(1, Acquire)];
  }

  /** Exclusion is exactly as wide as the key: some run has two mutations of p inside together iff p is no project. */
  lemma MutationsOverlapIff(p: Project)
    ensures (exists steps, a, b :: BothMutating(steps, p, a, b)) <==> p == NoProject
  {
    if p == NoProject {
      var steps := EmptyKeyDoesNotExclude();
      assert BothMutating(steps, p, 0, 1);
    } else {
      forall steps, a, b ensures !BothMutating(steps, p, a, b) { MutualExclusion(steps, p, a, b); }
    }
  }

  /** After these steps a and b, of these kinds and projects, are both inside their sections. */
  ghost predicate BothInside(steps: seq<Step>, a: Actor, k: Kind, p: Project, b: Actor, l: Kind, q: Project) {
    var s := Run(INITIAL, steps);
    && a != b && a in s.requests && b in s.requests && InSection(s.requests[a]) && InSection(s.requests[b])
    && s.requests[a].kind == k && s.requests[a].project == p && s.requests[b].kind == l && s.requests[b].project == q
  }

  /** The git routes want a project; executor mutations do not. */
  predicate Served(k: Kind, p: Project) {
    k == Mutation || p != NoProject
  }

  lemma BothArrive(k: Kind, p: Project, l: Kind, q: Project) returns (steps: seq<Step>)
    requires Served(k, p) && Served(l, q)
    ensures Run(INITIAL, steps) == INITIAL.(requests := map[0 := Request(k, p, Waiting, []), 1 := Request(l, q, Waiting, [])])
  {
    RunExtends(INITIAL, [], Arrive(0, k, p));
    steps := [] + [Arrive(0, k, p)];
    RunExtends(INITIAL, steps, Arrive(1, l, q));
    steps := steps + [Arrive(1, l, q)];
  }

  predicate Compatible(k: Kind, p: Project, l: Kind, q: Project) {
    p != q || p == NoProject || (k == Fetch && l == Fetch)
  }

  lemma FirstEnters(k: Kind, p: Project, l: Kind, q: Project) returns (steps: seq<Step>)
    requires Served(k, p) && Served(l, q) && Compatible(k, p, l, q)
    ensures var s := Run(INITIAL, steps);
            && s.requests == map[0 := Request(k, p, Holding, []), 1 := Request(l, q, Waiting, [])]
            && Enabled(s, s.requests[1], Acquire)
  {
    steps := BothArrive(k, p, l, q);
    RunExtends(INITIAL, steps, Act(0, Acquire));
    steps := steps + [Act(0, Acquire)];
  }

  lemma BothEnter(k: Kind, p: Project, l: Kind, q: Project) returns (steps: seq<Step>)
    requires Served(k, p) && Served(l, q) && Compatible(k, p, l, q)
    ensures BothInside(steps, 0, k, p, 1, l, q)
  {
    steps := FirstEnters(k, p, l, q);
    RunExtends(INITIAL, steps, Act(1, Acquire));
    steps := steps + [Act(1, Acquire)];
  }

  lemma {:induction false} InsideIsServed(steps: seq<Step>, a: Actor)
    ensures var s := Run(INITIAL, steps);
            a in s.requests && InSection(s.requests[a]) ==> Served(s.requests[a].kind, s.requests[a].project)
  {
    PushesHaveProject(steps, a);
  }

  lemma {:induction false} PushesHaveProject(steps: seq<Step>, a: Actor)
    ensures var s := Run(INITIAL, steps);
            a in s.requests ==> Served(s.requests[a].kind, s.requests[a].project) || s.requests[a].pc == Finished
  {
    if steps != [] {
      PushesHaveProject(steps[..|steps| - 1], a);
      ServedStays(Run(INITIAL, steps[..|steps| - 1]), steps[|steps| - 1], a);
    }
  }

  lemma ServedStays(s: State, step: Step, a: Actor)
    requires a in s.requests ==> Served(s.requests[a].kind, s.requests[a].project) || s.requests[a].pc == Finished
    ensures var s' := Apply(s, step);
            a in s'.requests ==> Served(s'.requests[a].kind, s'.requests[a].project) || s'.requests[a].pc == Finished
  {
  }

  /**
   Exactly which pairs of users can be inside together: those with different projects, or without one,
   and fetches of the same project.
   */
  lemma OverlapIff(k: Kind, p: Project, l: Kind, q: Project)
    ensures (exists steps, a, b :: BothInside(steps, a, k, p, b, l, q)) <==>
              Served(k, p) && Served(l, q) && Compatible(k, p, l, q)
  {
    if Served(k, p) && Served(l, q) && Compatible(k, p, l, q) {
      var steps := BothEnter(k, p, l, q);
    }
    forall steps, a, b | BothInside(steps, a, k, p, b, l, q)
      ensures Served(k, p) && Served(l, q) && Compatible(k, p, l, q)
    {
      InsideIsServed(steps, a);
      InsideIsServed(steps, b);
      MutualExclusion(steps, p, a, b);
    }
  }

  /**
   A fetch sees one tree from acquire to release, whatever else runs, and that tree is
   one a finished writer published, never one half way through a mutation.
   */
  lemma {:induction false} FetchSeesOnePublishedTree(steps: seq<Step>, a: Actor, i: nat, j: nat)
    ensures var s := Run(INITIAL, steps);
            a in s.requests && i < |s.requests[a].seen| && j < |s.requests[a].seen| ==>
              && s.requests[a].seen[i] == s.requests[a].seen[j]
              && (InSection(s.requests[a]) ==> s.requests[a].seen[i] == PublishedOf(s, s.requests[a].project))
  {
    RunKeepsInv(INITIAL, steps);
    var s := Run(INITIAL, steps);
    if a in s.requests {
      var p := s.requests[a].project;
      assert ProjectInv(s, p) && HoldersMatch(s, p, a);
    }
  }

  /** The locks register exactly the requests inside a critical section: none that is finished or still waiting. */
  lemma {:induction false} OnlySectionsHoldLocks(steps: seq<Step>, p: Project, a: Actor)
    ensures var s := Run(INITIAL, steps);
            a in HoldersOf(s, p).writers + HoldersOf(s, p).readers <==> Inside(s, p, a)
  {
    RunKeepsInv(INITIAL, steps);
    assert HoldersMatch(Run(INITIAL, steps), p, a);
  }

  /** The tree that a's own writes among `steps` leave behind, starting from t. */
  function LastWrite(a: Actor, t: Tree, steps: seq<Step>): Tree {
    if steps == [] then t
    else
      var last := steps[|steps| - 1];
      if last.Act? && last.actor == a && last.action.Write? then last.action.tree else LastWrite(a, t, steps[..|steps| - 1])
  }

  lemma {:induction false} LastWriteOfOne(a: Actor, t: Tree, step: Step)
    ensures LastWrite(a, t, [step]) == if step.Act? && step.actor == a && step.action.Write? then step.action.tree else t
  {
    assert [step][..0] == [] && LastWrite(a, t, []) == t;
  }

  lemma ActSparesTree(s: State, a: Actor, b: Actor, action: Action)
    requires Inv(s) && a in s.requests && CanWrite(s.requests[a]) && s.requests[a].project != NoProject
    requires b in s.requests && Enabled(s, s.requests[b], action)
    ensures var s', p := ApplyAction(s, b, s.requests[b], action), s.requests[a].project;
            && (s'.requests[a] == s.requests[a] || s'.requests[a].pc == Finished)
            && TreeOf(s', p) == if a == b && action.Write? then action.tree else TreeOf(s, p)
  {
    var p := s.requests[a].project;
    assert ProjectInv(s, p) && HoldersMatch(s, p, a) && HoldersMatch(s, p, b);
  }

  /** One step, taken while a may write p: the tree of p changes only if the step is a's own write. */
  lemma {:induction false} StepSparesTree(s: State, a: Actor, step: Step)
    requires Inv(s) && a in s.requests && CanWrite(s.requests[a]) && s.requests[a].project != NoProject
    ensures var s', p := Apply(s, step), s.requests[a].project;
            && a in s'.requests && (s'.requests[a] == s.requests[a] || s'.requests[a].pc == Finished)
            && TreeOf(s', p) == LastWrite(a, TreeOf(s, p), [step])
  {
    LastWriteOfOne(a, TreeOf(s, s.requests[a].project), step);
    if step.Act? && step.actor in s.requests && Enabled(s, s.requests[step.actor], step.action) {
      ActSparesTree(s, a, step.actor, step.action);
    }
  }

  lemma FinishedStays(s: State, a: Actor, step: Step)
    requires a in s.requests && s.requests[a].pc == Finished
    ensures a in Apply(s, step).requests && Apply(s, step).requests[a].pc == Finished
  {
  }

  /**
   While a push (or a mutation) is writing, the tree is what its own writes made it: a task
   leased meanwhile, and every other fetch, push or mutation, leaves it alone until it ends.
   */
  lemma {:induction false} WriterOwnsTree(s: State, a: Actor, steps: seq<Step>)
    requires Inv(s) && a in s.requests && CanWrite(s.requests[a]) && s.requests[a].project != NoProject
    ensures var s', p := Run(s, steps), s.requests[a].project;
            && a in s'.requests
            && (s'.requests[a].pc != Finished ==>
                  s'.requests[a] == s.requests[a] && TreeOf(s', p) == LastWrite(a, TreeOf(s, p), steps))
  {
    if steps != [] {
      var init, step := steps[..|steps| - 1], steps[|steps| - 1];
      WriterOwnsTree(s, a, init);
      RunKeepsInv(s, init);
      var m := Run(s, init);
      if m.requests[a].pc == Finished { FinishedStays(m, a, step); } else { StepSparesTree(m, a, step); }
    }
  }

  /**
   The gate: a push goes on to write exactly if the count of active tasks failed or found none, and the
   guards could be re-asserted; else it is refused. Either way it changes no tree and keeps its lock.
   */
  lemma GateOutcome(s: State, a: Actor, countFails: bool, guardFails: bool)
    requires a in s.requests && s.requests[a].kind == Push && s.requests[a].pc == Holding
    ensures var s', p := Apply(s, Act(a, Gate(countFails, guardFails))), s.requests[a].project;
            var active := if p in s.active then s.active[p] else 0;
            && (CanWrite(s'.requests[a]) <==> (countFails || active == 0) && !guardFails)
            && (s'.requests[a].pc == Returning <==> (!countFails && active > 0) || guardFails)
            && s'.tree == s.tree && (p != NoProject ==> HoldersOf(s', p) == HoldersOf(s, p))
  {
  }

  /** Leasing and ending a task of p move p's count of active tasks by one, and nothing else. */
  lemma ActiveCount(s: State, p: Project)
    ensures var n := if p in s.active then s.active[p] else 0;
            && Apply(s, LeaseTask(p)) == s.(active := s.active[p := n + 1])
            && (n > 0 ==> Apply(s, EndTask(p)) == s.(active := s.active[p := n - 1]))
            && (n == 0 ==> Apply(s, EndTask(p)) == s)
  {
  }

  /** A fetch that reads records the tree there is. */
  lemma ObserveRecords(s: State, a: Actor)
    requires a in s.requests && s.requests[a].kind == Fetch && s.requests[a].pc == Holding
    ensures Apply(s, Act(a, Observe)).requests[a].seen == s.requests[a].seen + [TreeOf(s, s.requests[a].project)]
  {
  }

  /** No request ends without having been inside, and no push without having passed or failed the gate. */
  lemma EndsFromInside(s: State, step: Step, a: Actor)
    requires a in s.requests && s.requests[a].pc != Finished
    ensures a in Apply(s, step).requests
    ensures Apply(s, step).requests[a].pc == Finished ==>
              && step == Act(a, Release)
              && (s.requests[a].pc == Executing || s.requests[a].pc == Returning
                  || (s.requests[a].pc == Holding && s.requests[a].kind != Push))
  {
  }

  /** What is published of a project changes only when a push or mutation of it ends, and is then the tree it leaves. */
  lemma PublishedAtTheEnd(s: State, step: Step, p: Project)
    ensures var s' := Apply(s, step);
            PublishedOf(s', p) != PublishedOf(s, p) ==>
              && step.Act? && step.action == Release && step.actor in s.requests
              && s.requests[step.actor].kind != Fetch && s.requests[step.actor].project == p
              && PublishedOf(s', p) == TreeOf(s, p)
  {
  }

  lemma StepKeepsRefusal(s: State, a: Actor, step: Step)
    requires a in s.requests && s.requests[a].kind == Push && (s.requests[a].pc == Returning || s.requests[a].pc == Finished)
    ensures var s' := Apply(s, step);
            a in s'.requests && s'.requests[a].kind == Push && (s'.requests[a].pc == Returning || s'.requests[a].pc == Finished)
  {
  }

  /** A push that finds an active task at the gate is refused for good: no continuation lets it write. */
  lemma {:induction false} RefusedPushNeverWrites(s: State, a: Actor, guardFails: bool, steps: seq<Step>)
    requires a in s.requests && s.requests[a].kind == Push && s.requests[a].pc == Holding
    requires Lookup(s.active, s.requests[a].project, 0) > 0
    ensures var s' := Run(Apply(s, Act(a, Gate(false, guardFails))), steps);
            a in s'.requests && s'.requests[a].kind == Push && (s'.requests[a].pc == Returning || s'.requests[a].pc == Finished)
  {
    if steps != [] {
      RefusedPushNeverWrites(s, a, guardFails, steps[..|steps| - 1]);
      StepKeepsRefusal(Run(Apply(s, Act(a, Gate(false, guardFails))), steps[..|steps| - 1]), a, steps[|steps| - 1]);
    }
  }

  // ---- No deadlock: from every reachable state every request can still finish ----

  lemma {:induction false} RunSplits(s: State, xs: seq<Step>, ys: seq<Step>)
    ensures Run(s, xs + ys) == Run(Run(s, xs), ys)
  {
    if ys == [] {
      assert xs + ys == xs;
    } else {
      assert (xs + ys)[..|xs + ys| - 1] == xs + ys[..|ys| - 1];
      RunSplits(s, xs, ys[..|ys| - 1]);
    }
  }

  lemma {:induction false} RunOne(s: State, step: Step)
    ensures Run(s, [step]) == Apply(s, step)
  {
  }

  /** A request inside its section can leave it on its own. */
  lemma LeaveSection(s: State, b: Actor) returns (steps: seq<Step>)
    requires b in s.requests && InSection(s.requests[b])
    ensures var s', p := Run(s, steps), s.requests[b].project;
            && b in s'.requests && s'.requests[b].pc == Finished && s'.requests == s.requests[b := s'.requests[b]]
            && (p != NoProject ==> HoldersOf(s', p) == HoldersAfter(HoldersOf(s, p), b, s.requests[b].kind, Release))
  {
    var gate := Act(b, Gate(false, false));
    RunOne(s, Act(b, Release));
    if s.requests[b].kind == Push && s.requests[b].pc == Holding {
      RunOne(s, gate);
      RunOne(Apply(s, gate), Act(b, Release));
      RunSplits(s, [gate], [Act(b, Release)]);
      steps := [gate] + [Act(b, Release)];
    } else {
      steps := [Act(b, Release)];
    }
  }

  /** Some holder of a lock that is not free can leave, and the lock then has fewer holders. */
  lemma OneLeaves(s: State, p: Project) returns (steps: seq<Step>)
    requires Inv(s) && !Free(HoldersOf(s, p))
    ensures var s' := Run(s, steps);
            && Inv(s')
            && |HoldersOf(s', p).writers| + |HoldersOf(s', p).readers| < |HoldersOf(s, p).writers| + |HoldersOf(s, p).readers|
            && forall a :: a in s.requests && !InSection(s.requests[a]) ==> a in s'.requests && s'.requests[a] == s.requests[a]
  {
    var h := HoldersOf(s, p);
    var b :| b in h.writers + h.readers;
    assert HoldersMatch(s, p, b);
    steps := LeaveSection(s, b);
    RunKeepsInv(s, steps);
    assert |h.writers - {b}| == |h.writers| - (if b in h.writers then 1 else 0);
    assert |h.readers - {b}| == |h.readers| - (if b in h.readers then 1 else 0);
  }

  lemma {:induction false} DrainLock(s: State, p: Project) returns (steps: seq<Step>)
    requires Inv(s)
    ensures Inv(Run(s, steps)) && Free(HoldersOf(Run(s, steps), p))
    ensures forall a :: a in s.requests && !InSection(s.requests[a]) ==>
              a in Run(s, steps).requests && Run(s, steps).requests[a] == s.requests[a]
    decreases |HoldersOf(s, p).writers| + |HoldersOf(s, p).readers|
  {
    if Free(HoldersOf(s, p)) {
      steps := [];
    } else {
      var first := OneLeaves(s, p);
      var rest := DrainLock(Run(s, first), p);
      steps := first + rest;
      RunSplits(s, first, rest);
    }
  }

  /** Whatever has happened so far, some continuation finishes any given request: the protocol cannot deadlock. */
  lemma EveryRequestCanFinish(steps: seq<Step>, a: Actor) returns (more: seq<Step>)
    requires a in Run(INITIAL, steps).requests
    ensures a in Run(INITIAL, steps + more).requests && Run(INITIAL, steps + more).requests[a].pc == Finished
  {
    RunKeepsInv(INITIAL, steps);
    var s := Run(INITIAL, steps);
    if s.requests[a].pc == Finished {
      more := [];
    } else if InSection(s.requests[a]) {
      more := LeaveSection(s, a);
    } else {
      var drain := DrainLock(s, s.requests[a].project);
      var m := Run(s, drain);
      RunOne(m, Act(a, Acquire));
      var leave := LeaveSection(Apply(m, Act(a, Acquire)), a);
      RunSplits(m, [Act(a, Acquire)], leave);
      RunSplits(s, drain, [Act(a, Acquire)] + leave);
      more := drain + ([Act(a, Acquire)] + leave);
    }
    RunSplits(INITIAL, steps, more);
  }
}
