/**
 Inline task creation with an idempotency key: look the key up, insert under the
 unique index on (project, key), look it up again if the insert was refused,
 then enqueue. Any number of requests interleave freely.
 */
module TaskCreation {
  import opened Options
  import opened Bytes

  type TaskId = nat
  type ProjectId = nat
  type Pid = nat

  /** A blank key is no key. */
  function KeyOf(raw: bytes): Option<bytes> {
    if TrimSpace(raw) == [] then None else Some(TrimSpace(raw))
  }

  datatype Task = Task(project: ProjectId, key: Option<bytes>, creator: Pid)

  datatype Code = Existing200 | Accepted202 | Error500
  datatype Pc = Start | Ready | Inserted | Duplicate | Answered(code: Code, named: TaskId)

  /** A create request; `id` is the identifier it generated. */
  datatype Request = Request(project: ProjectId, key: Option<bytes>, id: TaskId, pc: Pc)

  /** `index` is the unique index on (project, idempotency key) of the rows that have a key. */
  datatype State = State(
    tasks: map<TaskId, Task>,
    index: map<(ProjectId, bytes), TaskId>,
    requests: map<Pid, Request>,
    queue: seq<TaskId>)

  datatype Action =
    | Lookup(lookupFault: bool)
    | Insert(insertFault: bool, replyLost: bool)
    | Recheck(recheckFault: bool)
    | Enqueue(hasQueue: bool, enqueueFault: bool)

  datatype Step =
    | Submit(pid: Pid, project: ProjectId, rawKey: bytes, id: TaskId)
    | Act(pid: Pid, action: Action)

  const INITIAL := State(map[], map[], map[], [])

  predicate Indexed(s: State, p: ProjectId, key: Option<bytes>) {
    key.Some? && (p, key.value) in s.index
  }

  /** The primary key or the unique index refuses the row. */
  predicate Refused(s: State, r: Request) {
    r.id in s.tasks || Indexed(s, r.project, r.key)
  }

  /** GetByIdempotencyKey, answering 200 when the key has a row. */
  function AfterLookup(s: State, r: Request, fault: bool, otherwise: Pc): Pc {
    if fault then Answered(Error500, r.id)
    else if Indexed(s, r.project, r.key) then Answered(Existing200, s.index[(r.project, r.key.value)])
    else otherwise
  }

  function ApplyInsert(s: State, pid: Pid, r: Request, replyLost: bool): State {
    State(
      s.tasks[r.id := Task(r.project, r.key, pid)],
      if r.key.Some? then s.index[(r.project, r.key.value) := r.id] else s.index,
      s.requests[pid := r.(pc := if replyLost then Answered(Error500, r.id) else Inserted)],
      s.queue)
  }

  function MoveTo(s: State, pid: Pid, r: Request, pc: Pc): State {
    s.(requests := s.requests[pid := r.(pc := pc)])
  }

  function ApplyAction(s: State, pid: Pid, r: Request, action: Action): State {
    match action
    case Lookup(fault) =>
      if r.pc != Start then s else MoveTo(s, pid, r, if r.key.None? then Ready else AfterLookup(s, r, fault, Ready))
    case Insert(fault, replyLost) =>
      if r.pc != Ready then s
      else if fault then MoveTo(s, pid, r, Answered(Error500, r.id))
      else if Refused(s, r) then MoveTo(s, pid, r, Duplicate)
      else ApplyInsert(s, pid, r, replyLost)
    case Recheck(fault) =>
      if r.pc != Duplicate then s else MoveTo(s, pid, r, AfterLookup(s, r, fault, Answered(Error500, r.id)))
    case Enqueue(hasQueue, fault) =>
      if r.pc != Inserted then s
      else if hasQueue && fault then MoveTo(s, pid, r, Answered(Error500, r.id))
      else MoveTo(s, pid, r, Answered(Accepted202, r.id)).(queue := if hasQueue then s.queue + [r.id] else s.queue)
  }

  function Apply(s: State, step: Step): State {
    match step
    case Submit(pid, p, raw, id) =>
      if pid in s.requests then s else s.(requests := s.requests[pid := Request(p, KeyOf(raw), id, Start)])
    case Act(pid, action) =>
      if pid in s.requests then ApplyAction(s, pid, s.requests[pid], action) else s
  }

  function Run(steps: seq<Step>): State {
    if steps == [] then INITIAL else Apply(Run(steps[..|steps| - 1]), steps[|steps| - 1])
  }

  // ---- The invariant ----

  /** The index and the table agree, and a row's creator is the request whose identifier it carries. */
  ghost predicate TaskInv(s: State, t: TaskId)
    requires t in s.tasks
  {
    var row := s.tasks[t];
    && (row.key.Some? ==> (row.project, row.key.value) in s.index && s.index[(row.project, row.key.value)] == t)
    && row.creator in s.requests
    && var r := s.requests[row.creator];
       r.id == t && r.project == row.project && r.key == row.key && (r.pc == Inserted || r.pc.Answered?)
  }

  ghost predicate IndexInv(s: State, k: (ProjectId, bytes))
    requires k in s.index
  {
    s.index[k] in s.tasks && s.tasks[s.index[k]].project == k.0 && s.tasks[s.index[k]].key == Some(k.1)
  }

  ghost predicate RequestInv(s: State, pid: Pid)
    requires pid in s.requests
  {
    var r := s.requests[pid];
    && (r.pc == Inserted || (r.pc.Answered? && r.pc.code == Accepted202) ==> r.id in s.tasks && s.tasks[r.id].creator == pid)
    && (r.pc.Answered? && r.pc.code == Accepted202 ==> r.pc.named == r.id)
    && (r.pc.Answered? && r.pc.code == Existing200 ==> Indexed(s, r.project, r.key) && s.index[(r.project, r.key.value)] == r.pc.named)
  }

  ghost predicate QueueInv(s: State, t: TaskId) {
    && multiset(s.queue)[t] <= 1
    && (t in s.queue ==> t in s.tasks && s.tasks[t].creator in s.requests
                         && s.requests[s.tasks[t].creator].pc == Answered(Accepted202, t))
  }

  ghost predicate Inv(s: State) {
    && (forall t :: t in s.tasks ==> TaskInv(s, t))
    && (forall k :: k in s.index ==> IndexInv(s, k))
    && (forall pid :: pid in s.requests ==> RequestInv(s, pid))
    && (forall t :: QueueInv(s, t))
  }

  lemma MoveKeepsInv(s: State, pid: Pid, r: Request)
    requires Inv(s)
    requires pid in s.requests ==> r.(pc := s.requests[pid].pc) == s.requests[pid]
    requires pid in s.requests ==> !s.requests[pid].pc.Answered? && (s.requests[pid].pc == Inserted ==> r.pc.Answered?)
    requires RequestInv(s.(requests := s.requests[pid := r]), pid)
    ensures Inv(s.(requests := s.requests[pid := r]))
  {
    var s' := s.(requests := s.requests[pid := r]);
    forall t | t in s'.tasks ensures TaskInv(s', t) { assert TaskInv(s, t); }
    forall k | k in s'.index ensures IndexInv(s', k) { assert IndexInv(s, k); }
    forall q | q in s'.requests ensures RequestInv(s', q) { if q != pid { assert RequestInv(s, q); } }
    forall t ensures QueueInv(s', t) { assert QueueInv(s, t); }
  }

  lemma InsertKeepsInv(s: State, pid: Pid, replyLost: bool)
    requires Inv(s) && pid in s.requests && s.requests[pid].pc == Ready && !Refused(s, s.requests[pid])
    ensures Inv(ApplyInsert(s, pid, s.requests[pid], replyLost))
  {
    var r := s.requests[pid];
    var s' := ApplyInsert(s, pid, r, replyLost);
    forall t | t in s'.tasks ensures TaskInv(s', t) { if t != r.id { assert TaskInv(s, t); } }
    forall k | k in s'.index ensures IndexInv(s', k) { if k in s.index { assert IndexInv(s, k); } }
    forall q | q in s'.requests ensures RequestInv(s', q) { assert RequestInv(s, q); }
    forall t ensures QueueInv(s', t) { assert QueueInv(s, t); }
  }

  lemma EnqueueKeepsInv(s: State, pid: Pid)
    requires Inv(s) && pid in s.requests && s.requests[pid].pc == Inserted
    ensures Inv(ApplyAction(s, pid, s.requests[pid], Enqueue(true, false)))
  {
    var r := s.requests[pid];
    var s' := ApplyAction(s, pid, r, Enqueue(true, false));
    assert RequestInv(s, pid) && QueueInv(s, r.id);
    forall t | t in s'.tasks ensures TaskInv(s', t) { assert TaskInv(s, t); }
    forall k | k in s'.index ensures IndexInv(s', k) { assert IndexInv(s, k); }
    forall q | q in s'.requests ensures RequestInv(s', q) { assert RequestInv(s, q); }
    forall t ensures QueueInv(s', t) {
      assert QueueInv(s, t);
      if t in s.queue { assert s.requests[s.tasks[t].creator].pc == Answered(Accepted202, t); }
    }
  }

  lemma StepKeepsInv(s: State, step: Step)
    requires Inv(s)
    ensures Inv(Apply(s, step))
  {
    match step
    case Submit(pid, p, raw, id) =>
      if pid !in s.requests {
        forall t | t in s.tasks ensures s.tasks[t].creator != pid { assert TaskInv(s, t); }
        MoveKeepsInv(s, pid, Request(p, KeyOf(raw), id, Start));
      }
    case Act(pid, action) =>
      if pid in s.requests {
        var r, s' := s.requests[pid], Apply(s, step);
        assert RequestInv(s, pid);
        if action.Insert? && r.pc == Ready && !action.insertFault && !Refused(s, r) {
          InsertKeepsInv(s, pid, action.replyLost);
        } else if action.Enqueue? && r.pc == Inserted && action.hasQueue && !action.enqueueFault {
          EnqueueKeepsInv(s, pid);
        } else if s' != s {
          MoveKeepsInv(s, pid, s'.requests[pid]);
        }
      }
  }

  lemma {:induction false} RunKeepsInv(steps: seq<Step>)
    ensures Inv(Run(steps))
  {
    if steps != [] {
      RunKeepsInv(steps[..|steps| - 1]);
      StepKeepsInv(Run(steps[..|steps| - 1]), steps[|steps| - 1]);
    }
  }

  // ---- Main results ----

  /** At most one row is ever created for a project and a non-blank key. */
  lemma {:induction false} OneRowPerKey(steps: seq<Step>, t: TaskId, u: TaskId)
    ensures var s := Run(steps);
            (t in s.tasks && u in s.tasks && s.tasks[t].key.Some?
             && s.tasks[t].key == s.tasks[u].key && s.tasks[t].project == s.tasks[u].project) ==> t == u
  {
    RunKeepsInv(steps);
    var s := Run(steps);
    if t in s.tasks { assert TaskInv(s, t); }
    if u in s.tasks { assert TaskInv(s, u); }
  }

  predicate Succeeded(s: State, pid: Pid) {
    pid in s.requests && s.requests[pid].pc.Answered? && s.requests[pid].pc.code != Error500
  }

  /**
   All 200 and 202 answers to requests sharing a project and a non-blank key name one row, which
   exists and carries that key; at most one of them is a 202.
   */
  lemma {:induction false} AnswersNameTheSameRow(steps: seq<Step>, a: Pid, b: Pid)
    ensures var s := Run(steps);
            (Succeeded(s, a) && Succeeded(s, b) && s.requests[a].key.Some?
             && s.requests[a].key == s.requests[b].key && s.requests[a].project == s.requests[b].project) ==>
              && s.requests[a].pc.named == s.requests[b].pc.named
              && s.requests[a].pc.named in s.tasks
              && s.tasks[s.requests[a].pc.named].key == s.requests[a].key
              && s.tasks[s.requests[a].pc.named].project == s.requests[a].project
              && (s.requests[a].pc.code == s.requests[b].pc.code == Accepted202 ==> a == b)
  {
    RunKeepsInv(steps);
    var s := Run(steps);
    if Succeeded(s, a) && Succeeded(s, b) && s.requests[a].key.Some? && s.requests[a].key == s.requests[b].key {
      RowOfAnswer(s, a);
      RowOfAnswer(s, b);
    }
  }

  lemma RowOfAnswer(s: State, a: Pid)
    requires Inv(s) && Succeeded(s, a) && s.requests[a].key.Some?
    ensures var r := s.requests[a];
            && (r.project, r.key.value) in s.index && s.index[(r.project, r.key.value)] == r.pc.named
            && r.pc.named in s.tasks && s.tasks[r.pc.named].key == r.key && s.tasks[r.pc.named].project == r.project
            && (r.pc.code == Accepted202 ==> s.tasks[r.pc.named].creator == a)
  {
  }

  /** Creation puts a row on the queue at most once, only after its insert, and then its creator answers 202. */
  lemma {:induction false} EnqueuedAtMostOnce(steps: seq<Step>, t: TaskId)
    ensures var s := Run(steps);
            && multiset(s.queue)[t] <= 1
            && (t in s.queue ==> t in s.tasks && s.tasks[t].creator in s.requests
                                 && s.requests[s.tasks[t].creator].pc == Answered(Accepted202, t))
  {
    RunKeepsInv(steps);
    assert QueueInv(Run(steps), t);
  }

  // ---- The keys that callers send ----

  /** Step i of the run is the arrival of request pid, for project p with this key text. */
  predicate Sends(steps: seq<Step>, i: nat, pid: Pid, p: ProjectId, raw: bytes)
    requires i < |steps|
  {
    steps[i].Submit? && steps[i].pid == pid && steps[i].project == p && steps[i].rawKey == raw
    && pid !in Run(steps[..i]).requests
  }

  lemma StepKeepsRequest(s: State, step: Step, pid: Pid)
    requires pid in s.requests
    ensures pid in Apply(s, step).requests
    ensures Apply(s, step).requests[pid].project == s.requests[pid].project
    ensures Apply(s, step).requests[pid].key == s.requests[pid].key && Apply(s, step).requests[pid].id == s.requests[pid].id
  {
  }

  lemma Arrives(s: State, pid: Pid, p: ProjectId, raw: bytes, id: TaskId)
    requires pid !in s.requests
    ensures Apply(s, Submit(pid, p, raw, id)).requests ==
            s.requests[pid := Request(p, if TrimSpace(raw) == [] then None else Some(TrimSpace(raw)), id, Start)]
  {
  }

  /** A request keeps the project it was sent to, and the trimmed text of its key, or no key if that is nothing. */
  lemma {:induction false} RequestIsAsSent(steps: seq<Step>, i: nat, pid: Pid, p: ProjectId, raw: bytes)
    requires i < |steps| && Sends(steps, i, pid, p, raw)
    ensures var s := Run(steps);
            && pid in s.requests && s.requests[pid].project == p && s.requests[pid].id == steps[i].id
            && s.requests[pid].key == if TrimSpace(raw) == [] then None else Some(TrimSpace(raw))
  {
    var n := |steps| - 1;
    var init := steps[..n];
    assert Run(steps) == Apply(Run(init), steps[n]);
    if i < n {
      assert init[..i] == steps[..i] && init[i] == steps[i];
      RequestIsAsSent(init, i, pid, p, raw);
      StepKeepsRequest(Run(init), steps[n], pid);
    } else {
      Arrives(Run(init), pid, p, raw, steps[n].id);
    }
  }

  /** Requests a and b were sent to one project with keys that are the same non-blank text but for outer white space. */
  predicate SameKeySent(steps: seq<Step>, i: nat, j: nat, a: Pid, b: Pid)
    requires i < |steps| && j < |steps|
  {
    && steps[i].Submit? && steps[j].Submit? && steps[i].project == steps[j].project
    && Sends(steps, i, a, steps[i].project, steps[i].rawKey) && Sends(steps, j, b, steps[j].project, steps[j].rawKey)
    && TrimSpace(steps[i].rawKey) == TrimSpace(steps[j].rawKey) != []
  }

  /** Requests sent to one project with one non-blank key text create at most one row between them. */
  lemma {:induction false} OneRowPerSentKey(steps: seq<Step>, i: nat, j: nat, a: Pid, b: Pid, t: TaskId, u: TaskId)
    requires i < |steps| && j < |steps| && SameKeySent(steps, i, j, a, b)
    ensures var s := Run(steps);
            t in s.tasks && u in s.tasks && s.tasks[t].creator == a && s.tasks[u].creator == b ==> t == u && a == b
  {
    RequestIsAsSent(steps, i, a, steps[i].project, steps[i].rawKey);
    RequestIsAsSent(steps, j, b, steps[j].project, steps[j].rawKey);
    RunKeepsInv(steps);
    var s := Run(steps);
    if t in s.tasks && u in s.tasks && s.tasks[t].creator == a && s.tasks[u].creator == b {
      assert TaskInv(s, t) && TaskInv(s, u);
      OneRowPerKey(steps, t, u);
    }
  }

  /** All their 200 and 202 answers name one row, which exists, in that project and with that text as its key. */
  lemma {:induction false} SentKeyNamesOneRow(steps: seq<Step>, i: nat, j: nat, a: Pid, b: Pid)
    requires i < |steps| && j < |steps| && SameKeySent(steps, i, j, a, b)
    ensures var s := Run(steps);
            Succeeded(s, a) && Succeeded(s, b) ==>
              && s.requests[a].pc.named == s.requests[b].pc.named && s.requests[a].pc.named in s.tasks
              && s.tasks[s.requests[a].pc.named].project == steps[i].project
              && s.tasks[s.requests[a].pc.named].key == Some(TrimSpace(steps[i].rawKey))
              && (s.requests[a].pc.code == s.requests[b].pc.code == Accepted202 ==> a == b)
  {
    RequestIsAsSent(steps, i, a, steps[i].project, steps[i].rawKey);
    RequestIsAsSent(steps, j, b, steps[j].project, steps[j].rawKey);
    AnswersNameTheSameRow(steps, a, b);
  }

  /**
   Left undisturbed and without faults, a request that has just arrived is answered: 200 with the row of
   its key if there is one, else 202 with a new row of its own, which goes on the queue.
   */
  lemma Undisturbed(s: State, pid: Pid)
    requires pid in s.requests && s.requests[pid].pc == Start && s.requests[pid].id !in s.tasks
    ensures var r := s.requests[pid];
            var looked := Apply(s, Act(pid, Lookup(false)));
            var s' := Apply(Apply(looked, Act(pid, Insert(false, false))), Act(pid, Enqueue(true, false)));
            if r.key.Some? && (r.project, r.key.value) in s.index then
              looked.requests[pid].pc == Answered(Existing200, s.index[(r.project, r.key.value)]) && s' == looked
              && s'.tasks == s.tasks && s'.queue == s.queue
            else
              s'.requests[pid].pc == Answered(Accepted202, r.id) && s'.queue == s.queue + [r.id]
              && s'.tasks == s.tasks[r.id := Task(r.project, r.key, pid)]
  {
    var r, looked := s.requests[pid], Apply(s, Act(pid, Lookup(false)));
    var inserted := Apply(looked, Act(pid, Insert(false, false)));
    if Indexed(s, r.project, r.key) {
      assert looked.requests[pid].pc.Answered? && inserted == looked;
    } else {
      assert looked == s.(requests := s.requests[pid := r.(pc := Ready)]) && !Refused(looked, looked.requests[pid]);
      assert inserted.requests[pid].pc == Inserted && inserted.requests[pid].id == r.id && inserted.queue == s.queue;
    }
  }

  /** A lookup, insert or enqueue that fails is answered 500 and adds nothing to the table or the queue. */
  lemma FaultAnswers(s: State, pid: Pid)
    requires pid in s.requests
    ensures var r := s.requests[pid];
            var failed := s.(requests := s.requests[pid := r.(pc := Answered(Error500, r.id))]);
            && (r.pc == Start && r.key.Some? ==> Apply(s, Act(pid, Lookup(true))) == failed)
            && (r.pc == Ready ==> Apply(s, Act(pid, Insert(true, false))) == failed)
            && (r.pc == Duplicate ==> Apply(s, Act(pid, Recheck(true))) == failed)
            && (r.pc == Duplicate && !Indexed(s, r.project, r.key) ==> Apply(s, Act(pid, Recheck(false))) == failed)
            && (r.pc == Inserted ==> Apply(s, Act(pid, Enqueue(true, true))) == failed)
  {
  }

  /** Without a queue the new row is answered 202 all the same. */
  lemma NoQueue(s: State, pid: Pid, fault: bool)
    requires pid in s.requests && s.requests[pid].pc == Inserted
    ensures var s' := Apply(s, Act(pid, Enqueue(false, fault)));
            && s'.requests[pid].pc == Answered(Accepted202, s.requests[pid].id)
            && s'.tasks == s.tasks && s'.queue == s.queue
  {
  }

  /** A request whose insert met the index answers 200 with the row it met. */
  lemma DuplicateAnswers(s: State, pid: Pid)
    requires pid in s.requests && s.requests[pid].pc == Ready && s.requests[pid].key.Some?
    requires (s.requests[pid].project, s.requests[pid].key.value) in s.index
    ensures var r := s.requests[pid];
            var s' := Apply(Apply(s, Act(pid, Insert(false, false))), Act(pid, Recheck(false)));
            && s'.requests[pid].pc == Answered(Existing200, s.index[(r.project, r.key.value)])
            && s'.tasks == s.tasks && s'.queue == s.queue
  {
    var m := Apply(s, Act(pid, Insert(false, false)));
    assert m == s.(requests := s.requests[pid := s.requests[pid].(pc := Duplicate)]);
  }
}
