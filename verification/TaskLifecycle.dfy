/**
 Cancel, companion cancel and retry requests racing with each other and with the
 scheduler over the task rows.

 Every request reads a row, decides on that snapshot, and issues one conditional
 UPDATE that is gated on the live row. A step that is not enabled changes
 nothing, so the step sequences are exactly the interleavings.
 */
module TaskLifecycle {
  import opened Options

  type TaskId = nat
  type ProjectId = nat
  type Pid = nat
  type Lease = nat

  datatype Status =
    | Pending | Queued | Leased | Running | WaitingForChildren | Completed | Failed | Cancelled
    | AwaitingInput | AwaitingExternal | Paused | Closed | AwaitingApproval

  datatype Row = Row(project: ProjectId, status: Status, attempt: int, maxAttempts: int, lease: Option<Lease>)

  /** The statuses the cancel statement's WHERE clause accepts. */
  predicate Cancellable(st: Status) {
    st == Queued || st == Leased || st == Running || st == Pending
  }

  /** The statuses the retry handler accepts on its snapshot. */
  predicate Retryable(st: Status) {
    st == Failed || st == Cancelled || st == Completed
  }

  /** The statuses the requeue statement's WHERE clause accepts: the handler's three, and PENDING. */
  predicate Requeueable(st: Status) {
    Retryable(st) || st == Pending
  }

  predicate Terminal(st: Status) {
    Retryable(st) || st == Closed
  }

  predicate Good(r: Row) {
    1 <= r.attempt <= r.maxAttempts
  }

  datatype Kind = Cancel | CompanionCancel | Retry(reset: bool)
  datatype Answer = Ok | NothingToCancel | NotFound | BadRequest | Conflict | ServerError
  datatype Pc = Start | Decided | Won | Lost | Answered(answer: Answer)

  /** A request. `snapshot` is the row it read; `slot` is the log index of its committed write, or -1. */
  datatype Request = Request(kind: Kind, task: TaskId, project: ProjectId, pc: Pc, snapshot: Row, slot: int)

  datatype Author = Handler(pid: Pid) | Daemon

  /** One committed row change. */
  datatype Entry = Entry(author: Author, task: TaskId, before: Option<Row>, after: Row)

  /** What a scheduler worker remembers of the row it leased. */
  datatype Claim = Claim(task: TaskId, snapshot: Row)

  datatype State = State(
    rows: map<TaskId, Row>,
    requests: map<Pid, Request>,
    claims: map<Lease, Claim>,
    log: seq<Entry>,
    queue: seq<TaskId>)

  datatype Outcome = Settled(status: Status) | RunFailed | LeaseExpired

  datatype Step =
    | Submit(pid: Pid, kind: Kind, task: TaskId, project: ProjectId)
    | Read(pid: Pid, fault: bool, malformedBody: bool)
    | Execute(pid: Pid, fault: bool, replyLost: bool)
    | Respond(pid: Pid, enqueueFails: bool)
    | CreateRow(task: TaskId, project: ProjectId, attempt: int, maxAttempts: int)
    | ClaimTask(task: TaskId, lease: Lease)
    | RefreshClaim(lease: Lease)
    | ReleaseClaim(lease: Lease, outcome: Outcome)
    | SetStatus(task: TaskId, status: Status)
    | WriteBack(task: TaskId, row: Row)

  const NO_ROW := Row(0, Queued, 1, 3, None)
  const INITIAL := State(map[], map[], map[], [], [])

  function Find(rows: map<TaskId, Row>, t: TaskId): Option<Row> {
    if t in rows then Some(rows[t]) else None
  }

  function Commit(s: State, author: Author, t: TaskId, after: Row): State {
    s.(rows := s.rows[t := after], log := s.log + [Entry(author, t, Find(s.rows, t), after)])
  }

  /** The read and the checks on the snapshot. */
  function DecideAfter(rows: map<TaskId, Row>, r: Request, fault: bool, malformedBody: bool): Request {
    if fault then r.(pc := Answered(ServerError))
    else if r.task !in rows || rows[r.task].project != r.project then r.(pc := Answered(NotFound))
    else
      var row := rows[r.task];
      if r.kind == Cancel && !Cancellable(row.status) then r.(pc := Answered(BadRequest))
      else if r.kind.Retry? && (!Retryable(row.status) || malformedBody) then r.(pc := Answered(BadRequest))
      else r.(pc := Decided, snapshot := row)
  }

  predicate Matches(kind: Kind, live: Row) {
    if kind.Retry? then Requeueable(live.status) else Cancellable(live.status)
  }

  /** The row the request's UPDATE writes: the counters of a retry come from its snapshot, not from the live row. */
  function Written(r: Request, live: Row): Row {
    if !r.kind.Retry? then live.(status := Cancelled)
    else if r.kind.reset then live.(status := Queued, attempt := 1, maxAttempts := r.snapshot.maxAttempts, lease := None)
    else
      var next := r.snapshot.attempt + 1;
      live.(status := Queued, attempt := next, maxAttempts := if next > r.snapshot.maxAttempts then next else r.snapshot.maxAttempts, lease := None)
  }

  function ApplyExecute(s: State, pid: Pid, r: Request, fault: bool, replyLost: bool): State {
    if fault then s.(requests := s.requests[pid := r.(pc := Answered(ServerError))])
    else if r.task in s.rows && Matches(r.kind, s.rows[r.task]) then
      Commit(s, Handler(pid), r.task, Written(r, s.rows[r.task]))
        .(requests := s.requests[pid := r.(pc := if replyLost then Answered(ServerError) else Won, slot := |s.log|)])
    else s.(requests := s.requests[pid := r.(pc := if replyLost then Answered(ServerError) else Lost)])
  }

  function FinalAnswer(r: Request, enqueueFails: bool): Answer {
    if r.pc == Won then (if r.kind.Retry? && enqueueFails then ServerError else Ok)
    else if r.kind == CompanionCancel then NothingToCancel
    else Conflict
  }

  function ApplyRespond(s: State, pid: Pid, r: Request, enqueueFails: bool): State {
    s.(requests := s.requests[pid := r.(pc := Answered(FinalAnswer(r, enqueueFails)))],
       queue := if r.pc == Won && r.kind.Retry? && !enqueueFails then s.queue + [r.task] else s.queue)
  }

  function AtLeastOne(n: int): int {
    if n <= 0 then 1 else n
  }

  /** The scheduler's release, gated on the lease alone: counters stay, or come from the worker's snapshot. */
  function Released(live: Row, snap: Row, outcome: Outcome): Row {
    var most, attempt := AtLeastOne(snap.maxAttempts), AtLeastOne(snap.attempt);
    match outcome
    case Settled(st) => live.(status := st, lease := None)
    case RunFailed =>
      if attempt < most then live.(status := Queued, attempt := attempt + 1, maxAttempts := most, lease := None)
      else live.(status := Failed, attempt := attempt, maxAttempts := most, lease := None)
    case LeaseExpired =>
      if snap.attempt + 1 > most then live.(status := Failed, attempt := most, maxAttempts := most, lease := None)
      else live.(status := Queued, attempt := snap.attempt + 1, maxAttempts := most, lease := None)
  }

  predicate HoldsLease(s: State, lease: Lease) {
    lease in s.claims && s.claims[lease].task in s.rows && s.rows[s.claims[lease].task].lease == Some(lease)
  }

  function Apply(s: State, step: Step): State {
    match step
    case Submit(pid, kind, t, p) =>
      if pid in s.requests then s else s.(requests := s.requests[pid := Request(kind, t, p, Start, NO_ROW, -1)])
    case Read(pid, fault, malformedBody) =>
      if pid in s.requests && s.requests[pid].pc == Start
      then s.(requests := s.requests[pid := DecideAfter(s.rows, s.requests[pid], fault, malformedBody)]) else s
    case Execute(pid, fault, replyLost) =>
      if pid in s.requests && s.requests[pid].pc == Decided then ApplyExecute(s, pid, s.requests[pid], fault, replyLost) else s
    case Respond(pid, enqueueFails) =>
      if pid in s.requests && (s.requests[pid].pc == Won || s.requests[pid].pc == Lost)
      then ApplyRespond(s, pid, s.requests[pid], enqueueFails) else s
    case CreateRow(t, p, attempt, most) =>
      var row := Row(p, Queued, attempt, most, None);
      if t in s.rows || !Good(row) then s else Commit(s, Daemon, t, row)
    case ClaimTask(t, lease) =>
      if t in s.rows && s.rows[t].status == Queued && s.rows[t].lease == None && lease !in s.claims then
        var row := s.rows[t].(status := Leased, lease := Some(lease));
        Commit(s, Daemon, t, row).(claims := s.claims[lease := Claim(t, row)])
      else s
    case RefreshClaim(lease) =>
      if HoldsLease(s, lease) then s.(claims := s.claims[lease := Claim(s.claims[lease].task, s.rows[s.claims[lease].task])]) else s
    case ReleaseClaim(lease, outcome) =>
      if HoldsLease(s, lease) then
        var c := s.claims[lease];
        Commit(s, Daemon, c.task, Released(s.rows[c.task], c.snapshot, outcome))
      else s
    case SetStatus(t, st) =>
      if t in s.rows then Commit(s, Daemon, t, s.rows[t].(status := st)) else s
    case WriteBack(t, row) =>
      // A whole row from some snapshot; the table's CHECK on the counters refuses a bad one.
      if t in s.rows && Good(row) then Commit(s, Daemon, t, row) else s
  }

  function Run(steps: seq<Step>): State {
    if steps == [] then INITIAL else Apply(Run(steps[..|steps| - 1]), steps[|steps| - 1])
  }

  // ---- The log determines the table ----

  /** The row of t after the writes in the log. */
  function Replay(log: seq<Entry>, t: TaskId): Option<Row> {
    if log == [] then None
    else if log[|log| - 1].task == t then Some(log[|log| - 1].after)
    else Replay(log[..|log| - 1], t)
  }

  // ---- The invariant ----

  /** A handler's write: what it saw live, and what it did to the row. */
  ghost predicate HandlerWrite(r: Request, e: Entry) {
    && r.task == e.task && e.before.Some?
    && Matches(r.kind, e.before.value)
    && e.after == Written(r, e.before.value)
  }

  ghost predicate EntryInv(s: State, i: int)
    requires 0 <= i < |s.log|
  {
    var e := s.log[i];
    && Good(e.after)
    && e.before == Replay(s.log[..i], e.task)
    && (e.author.Handler? ==>
          e.author.pid in s.requests && s.requests[e.author.pid].slot == i && HandlerWrite(s.requests[e.author.pid], e))
  }

  ghost predicate RequestInv(s: State, pid: Pid)
    requires pid in s.requests
  {
    var r := s.requests[pid];
    && Good(r.snapshot)
    && -1 <= r.slot < |s.log|
    && (r.slot >= 0 ==> s.log[r.slot].author == Handler(pid))
    && (r.pc == Won || r.pc == Answered(Ok) ==> r.slot >= 0)
    && (r.slot >= 0 ==> r.pc == Won || r.pc == Answered(Ok) || r.pc == Answered(ServerError))
    && (r.pc == Decided ==> (r.kind.Retry? ==> Retryable(r.snapshot.status)))
  }

  ghost predicate Inv(s: State) {
    && (forall t :: t in s.rows ==> Good(s.rows[t]))
    && (forall t :: Find(s.rows, t) == Replay(s.log, t))
    && (forall l :: l in s.claims ==> Good(s.claims[l].snapshot))
    && (forall i :: 0 <= i < |s.log| ==> EntryInv(s, i))
    && (forall pid :: pid in s.requests ==> RequestInv(s, pid))
  }

  /** A daemon write of a good row keeps the invariant. */
  lemma DaemonCommitKeepsInv(s: State, t: TaskId, row: Row)
    requires Inv(s) && Good(row)
    ensures Inv(Commit(s, Daemon, t, row))
  {
    var s' := Commit(s, Daemon, t, row);
    assert s'.log[..|s.log|] == s.log;
    forall i | 0 <= i < |s'.log| ensures EntryInv(s', i) {
      if i < |s.log| { assert EntryInv(s, i) && s'.log[..i] == s.log[..i]; }
    }
    forall pid | pid in s'.requests ensures RequestInv(s', pid) { assert RequestInv(s, pid); }
  }

  /** Moving one request without a write keeps the invariant. */
  lemma RequestMoveKeepsInv(s: State, pid: Pid, r: Request)
    requires Inv(s) && (pid in s.requests ==> r.(pc := s.requests[pid].pc, snapshot := s.requests[pid].snapshot) == s.requests[pid])
    requires pid in s.requests && s.requests[pid].slot >= 0 ==> r.snapshot == s.requests[pid].snapshot
    requires pid !in s.requests ==> r.slot == -1
    requires RequestInv(s.(requests := s.requests[pid := r]), pid)
    ensures Inv(s.(requests := s.requests[pid := r]))
  {
    var s' := s.(requests := s.requests[pid := r]);
    forall i | 0 <= i < |s'.log| ensures EntryInv(s', i) { assert EntryInv(s, i); }
    forall q | q in s'.requests ensures RequestInv(s', q) { if q != pid { assert RequestInv(s, q); } }
  }

  lemma ExecuteKeepsInv(s: State, pid: Pid, replyLost: bool)
    requires Inv(s) && pid in s.requests && s.requests[pid].pc == Decided
    requires s.requests[pid].task in s.rows && Matches(s.requests[pid].kind, s.rows[s.requests[pid].task])
    ensures Inv(ApplyExecute(s, pid, s.requests[pid], false, replyLost))
  {
    var s' := ApplyExecute(s, pid, s.requests[pid], false, replyLost);
    assert RequestInv(s, pid);
    assert s'.log[..|s.log|] == s.log;
    forall i | 0 <= i < |s'.log| ensures EntryInv(s', i) {
      if i < |s.log| { assert EntryInv(s, i) && s'.log[..i] == s.log[..i]; }
    }
    forall q | q in s'.requests ensures RequestInv(s', q) { assert RequestInv(s, q); }
  }

  lemma ExecuteStepKeepsInv(s: State, pid: Pid, fault: bool, replyLost: bool)
    requires Inv(s) && pid in s.requests && s.requests[pid].pc == Decided
    ensures Inv(ApplyExecute(s, pid, s.requests[pid], fault, replyLost))
  {
    var r := s.requests[pid];
    assert RequestInv(s, pid);
    if !fault && r.task in s.rows && Matches(r.kind, s.rows[r.task]) {
      ExecuteKeepsInv(s, pid, replyLost);
    } else {
      RequestMoveKeepsInv(s, pid, ApplyExecute(s, pid, r, fault, replyLost).requests[pid]);
    }
  }

  lemma RespondKeepsInv(s: State, pid: Pid, enqueueFails: bool)
    requires Inv(s) && pid in s.requests && (s.requests[pid].pc == Won || s.requests[pid].pc == Lost)
    ensures Inv(ApplyRespond(s, pid, s.requests[pid], enqueueFails))
  {
    var r := s.requests[pid];
    var moved := r.(pc := Answered(FinalAnswer(r, enqueueFails)));
    assert RequestInv(s, pid);
    RequestMoveKeepsInv(s, pid, moved);
    QueueKeepsInv(s.(requests := s.requests[pid := moved]), ApplyRespond(s, pid, r, enqueueFails).queue);
  }

  lemma StepKeepsInv(s: State, step: Step)
    requires Inv(s)
    ensures Inv(Apply(s, step))
  {
    match step
    case Submit(pid, kind, t, p) =>
      if pid !in s.requests { RequestMoveKeepsInv(s, pid, Request(kind, t, p, Start, NO_ROW, -1)); }
    case Read(pid, fault, malformedBody) =>
      if pid in s.requests && s.requests[pid].pc == Start {
        assert RequestInv(s, pid);
        RequestMoveKeepsInv(s, pid, DecideAfter(s.rows, s.requests[pid], fault, malformedBody));
      }
    case Execute(pid, fault, replyLost) =>
      if pid in s.requests && s.requests[pid].pc == Decided { ExecuteStepKeepsInv(s, pid, fault, replyLost); }
    case Respond(pid, enqueueFails) =>
      if pid in s.requests && (s.requests[pid].pc == Won || s.requests[pid].pc == Lost) {
        RespondKeepsInv(s, pid, enqueueFails);
      }
    case _ => DaemonStepKeepsInv(s, step);
  }

  lemma QueueKeepsInv(s: State, queue: seq<TaskId>)
    requires Inv(s)
    ensures Inv(s.(queue := queue))
  {
    var s' := s.(queue := queue);
    forall i | 0 <= i < |s'.log| ensures EntryInv(s', i) { assert EntryInv(s, i); }
    forall q | q in s'.requests ensures RequestInv(s', q) { assert RequestInv(s, q); }
  }

  lemma ClaimsKeepInv(s: State, claims: map<Lease, Claim>)
    requires Inv(s) && forall l :: l in claims ==> Good(claims[l].snapshot)
    ensures Inv(s.(claims := claims))
  {
    var s' := s.(claims := claims);
    forall i | 0 <= i < |s'.log| ensures EntryInv(s', i) { assert EntryInv(s, i); }
    forall q | q in s'.requests ensures RequestInv(s', q) { assert RequestInv(s, q); }
  }

  lemma DaemonStepKeepsInv(s: State, step: Step)
    requires Inv(s) && (step.CreateRow? || step.ClaimTask? || step.RefreshClaim? || step.ReleaseClaim? || step.SetStatus? || step.WriteBack?)
    ensures Inv(Apply(s, step))
  {
    var s' := Apply(s, step);
    if s' != s {
      match step
      case CreateRow(t, p, attempt, most) => DaemonCommitKeepsInv(s, t, Row(p, Queued, attempt, most, None));
      case ClaimTask(t, lease) =>
        var row := s.rows[t].(status := Leased, lease := Some(lease));
        DaemonCommitKeepsInv(s, t, row);
        ClaimsKeepInv(Commit(s, Daemon, t, row), s'.claims);
      case RefreshClaim(lease) => ClaimsKeepInv(s, s'.claims);
      case ReleaseClaim(lease, outcome) => DaemonCommitKeepsInv(s, s.claims[lease].task, s'.rows[s.claims[lease].task]);
      case SetStatus(t, st) => DaemonCommitKeepsInv(s, t, s'.rows[t]);
      case WriteBack(t, row) => DaemonCommitKeepsInv(s, t, row);
    }
  }

  lemma {:induction false} RunKeepsInv(steps: seq<Step>)
    ensures Inv(Run(steps))
  {
    if steps != [] {
      RunKeepsInv(steps[..|steps| - 1]);
      StepKeepsInv(Run(steps[..|steps| - 1]), steps[|steps| - 1]);
    }
  }

  // ---- Main results ----

  /** The attempt counter stays within its bound in every reachable state, though handlers write it from stale snapshots. */
  lemma {:induction false} AttemptsStayBounded(steps: seq<Step>, t: TaskId)
    ensures t in Run(steps).rows ==> 1 <= Run(steps).rows[t].attempt <= Run(steps).rows[t].maxAttempts
  {
    RunKeepsInv(steps);
  }

  /** The log is the whole history of the table: nothing changes a row without an entry, and no entry is overwritten unseen. */
  lemma {:induction false} LogIsComplete(steps: seq<Step>, t: TaskId, i: nat)
    ensures Find(Run(steps).rows, t) == Replay(Run(steps).log, t)
    ensures i < |Run(steps).log| ==> Run(steps).log[i].before == Replay(Run(steps).log[..i], Run(steps).log[i].task)
  {
    RunKeepsInv(steps);
    if i < |Run(steps).log| { assert EntryInv(Run(steps), i); }
  }

  /** A cancel of either kind never overwrites a terminal status, and changes nothing but the status. */
  lemma {:induction false} CancelSparesTerminal(steps: seq<Step>, i: nat)
    ensures var s := Run(steps);
            i < |s.log| && s.log[i].author.Handler? ==>
              && s.log[i].author.pid in s.requests
              && (!s.requests[s.log[i].author.pid].kind.Retry? ==>
                    && s.log[i].before.Some? && !Terminal(s.log[i].before.value.status)
                    && s.log[i].before.value.status !in {Completed, Failed, Cancelled, Closed}
                    && s.log[i].after == s.log[i].before.value.(status := Cancelled))
  {
    RunKeepsInv(steps);
    if i < |Run(steps).log| { assert EntryInv(Run(steps), i); }
  }

  /**
   Every request commits at most one write; a success answer is given only to requests that committed
   one, and a refusal never hides a write. (AnsweredAsCommitted has the other direction.)
   */
  lemma {:induction false} OneWritePerSuccess(steps: seq<Step>, pid: Pid, i: nat, j: nat)
    ensures var s := Run(steps);
            && (i < |s.log| && j < |s.log| && s.log[i].author == s.log[j].author == Handler(pid) ==> i == j)
            && (pid in s.requests && s.requests[pid].pc == Answered(Ok) ==>
                  exists k :: 0 <= k < |s.log| && s.log[k].author == Handler(pid) && s.log[k].task == s.requests[pid].task)
            && (i < |s.log| && s.log[i].author == Handler(pid) ==>
                  pid in s.requests && (s.requests[pid].pc == Won || s.requests[pid].pc == Answered(Ok) || s.requests[pid].pc == Answered(ServerError)))
  {
    RunKeepsInv(steps);
    var s := Run(steps);
    if i < |s.log| { assert EntryInv(s, i); }
    if j < |s.log| { assert EntryInv(s, j); }
    if pid in s.requests {
      assert RequestInv(s, pid);
      if s.requests[pid].slot >= 0 { assert EntryInv(s, s.requests[pid].slot); }
    }
  }

  /** The reply to this request's statement, or its enqueue, fails in this step. */
  predicate Loses(step: Step, pid: Pid) {
    (step.Execute? && step.pid == pid && step.replyLost) || (step.Respond? && step.pid == pid && step.enqueueFails)
  }

  ghost predicate NothingLost(steps: seq<Step>, pid: Pid) {
    forall i :: 0 <= i < |steps| ==> !Loses(steps[i], pid)
  }

  ghost predicate AnswersWrites(s: State, pid: Pid) {
    pid in s.requests && s.requests[pid].slot >= 0 ==> s.requests[pid].pc == Won || s.requests[pid].pc == Answered(Ok)
  }

  lemma StepAnswersWrites(s: State, step: Step, pid: Pid)
    requires Inv(s) && AnswersWrites(s, pid) && !Loses(step, pid)
    ensures AnswersWrites(Apply(s, step), pid)
  {
    if pid in s.requests { assert RequestInv(s, pid); }
  }

  lemma {:induction false} RunAnswersWrites(steps: seq<Step>, pid: Pid)
    requires NothingLost(steps, pid)
    ensures AnswersWrites(Run(steps), pid)
  {
    if steps != [] {
      var init := steps[..|steps| - 1];
      RunAnswersWrites(init, pid);
      RunKeepsInv(init);
      StepAnswersWrites(Run(init), steps[|steps| - 1], pid);
    }
  }

  /** If neither its reply nor its enqueue is lost, an answered request succeeded if and only if it committed a write. */
  lemma {:induction false} AnsweredAsCommitted(steps: seq<Step>, pid: Pid)
    requires NothingLost(steps, pid)
    ensures var s := Run(steps);
            pid in s.requests && s.requests[pid].pc.Answered? ==>
              (s.requests[pid].pc == Answered(Ok) <==> exists k :: 0 <= k < |s.log| && s.log[k].author == Handler(pid))
  {
    RunKeepsInv(steps);
    RunAnswersWrites(steps, pid);
    var s := Run(steps);
    if pid in s.requests {
      assert RequestInv(s, pid);
      forall k | 0 <= k < |s.log| && s.log[k].author == Handler(pid) ensures s.requests[pid].slot == k {
        assert EntryInv(s, k);
      }
    }
  }

  // ---- What one request does ----

  /**
   The read: a request goes on exactly if the task is there, in the request's own project, and in a
   status the handler accepts; a task of another project is as good as none. (The companion tool leaves
   the status to the statement.)
   */
  lemma ReadOutcome(s: State, pid: Pid, malformedBody: bool)
    requires pid in s.requests && s.requests[pid].pc == Start
    ensures var r, r' := s.requests[pid], Apply(s, Read(pid, false, malformedBody)).requests[pid];
            var own := r.task in s.rows && s.rows[r.task].project == r.project;
            && (r'.pc == Answered(NotFound) <==> !own)
            && (r'.pc == Decided <==>
                  own && match r.kind
                         case Cancel => s.rows[r.task].status in {Queued, Leased, Running, Pending}
                         case CompanionCancel => true
                         case Retry(_) => s.rows[r.task].status in {Failed, Cancelled, Completed} && !malformedBody)
            && (own && r'.pc != Decided ==> r'.pc == Answered(BadRequest))
            && (r'.pc == Decided ==> r'.snapshot == s.rows[r.task])
            && r' == r.(pc := r'.pc, snapshot := r'.snapshot)
  {
  }

  /** A read or a statement that fails is answered with a server error, and nothing is written. */
  lemma FaultOutcome(s: State, pid: Pid, malformedBody: bool, replyLost: bool)
    requires pid in s.requests
    ensures s.requests[pid].pc == Start ==>
              Apply(s, Read(pid, true, malformedBody)) ==
              s.(requests := s.requests[pid := s.requests[pid].(pc := Answered(ServerError))])
    ensures s.requests[pid].pc == Decided ==>
              Apply(s, Execute(pid, true, replyLost)) ==
              s.(requests := s.requests[pid := s.requests[pid].(pc := Answered(ServerError))])
    ensures s.requests[pid].pc == Decided ==> Apply(s, Execute(pid, false, true)).requests[pid].pc == Answered(ServerError)
  {
  }

  /**
   A scheduler leases exactly a QUEUED task that carries no lease, under a lease of its own; it remembers
   the row as leased, and what it remembers can be brought up to date while it holds the lease.
   */
  lemma ClaimOutcome(s: State, t: TaskId, lease: Lease)
    ensures var s' := Apply(s, ClaimTask(t, lease));
            if t in s.rows && s.rows[t].status == Queued && s.rows[t].lease == None && lease !in s.claims then
              && s'.rows == s.rows[t := Row(s.rows[t].project, Leased, s.rows[t].attempt, s.rows[t].maxAttempts, Some(lease))]
              && s'.claims == s.claims[lease := Claim(t, s'.rows[t])]
            else s' == s
    ensures HoldsLease(s, lease) ==>
              Apply(s, RefreshClaim(lease)).claims == s.claims[lease := Claim(s.claims[lease].task, s.rows[s.claims[lease].task])]
    ensures !HoldsLease(s, lease) ==> forall outcome :: Apply(s, ReleaseClaim(lease, outcome)) == s
  {
  }

  /** A retry whose enqueue fails is answered with a server error, though its row is QUEUED; a cancel has nothing to enqueue. */
  lemma EnqueueFails(s: State, pid: Pid)
    requires pid in s.requests && s.requests[pid].pc == Won
    ensures var s' := Apply(s, Respond(pid, true));
            && s'.rows == s.rows && s'.queue == s.queue
            && s'.requests[pid].pc == Answered(if s.requests[pid].kind.Retry? then ServerError else Ok)
  {
  }

  /** A cancel that has decided succeeds exactly on these live statuses, and then changes the status alone. */
  lemma CancelOutcome(s: State, pid: Pid, enqueueFails: bool)
    requires pid in s.requests && s.requests[pid].pc == Decided && !s.requests[pid].kind.Retry?
    ensures var r, s' := s.requests[pid], Apply(Apply(s, Execute(pid, false, false)), Respond(pid, enqueueFails));
            var wins := r.task in s.rows && s.rows[r.task].status in {Queued, Leased, Running, Pending};
            && s'.rows == (if wins then s.rows[r.task := s.rows[r.task].(status := Cancelled)] else s.rows)
            && s'.requests[pid].pc == Answered(if wins then Ok else if r.kind == Cancel then Conflict else NothingToCancel)
            && s'.queue == s.queue
  {
    var m := Apply(s, Execute(pid, false, false));
    assert m.queue == s.queue && m.requests[pid].kind == s.requests[pid].kind;
  }

  /**
   A retry that has decided succeeds exactly on these live statuses. It takes its counters from the row
   it read: one more attempt than that row had, or attempt 1 on a reset, and room for it.
   */
  lemma RetryOutcome(s: State, pid: Pid)
    requires pid in s.requests && s.requests[pid].pc == Decided && s.requests[pid].kind.Retry?
    ensures var r, s' := s.requests[pid], Apply(Apply(s, Execute(pid, false, false)), Respond(pid, false));
            var wins := r.task in s.rows && s.rows[r.task].status in {Failed, Cancelled, Completed, Pending};
            var attempt := if r.kind.reset then 1 else r.snapshot.attempt + 1;
            && s'.requests[pid].pc == Answered(if wins then Ok else Conflict)
            && s'.queue == (if wins then s.queue + [r.task] else s.queue)
            && (!wins ==> s'.rows == s.rows)
            && (wins ==>
                  && var most := if attempt > r.snapshot.maxAttempts && !r.kind.reset then attempt else r.snapshot.maxAttempts;
                     s'.rows == s.rows[r.task := Row(s.rows[r.task].project, Queued, attempt, most, None)])
  {
    var r, m := s.requests[pid], Apply(s, Execute(pid, false, false));
    var s' := Apply(m, Respond(pid, false));
    assert m.queue == s.queue && m.requests[pid].kind == r.kind && m.requests[pid].task == r.task && s'.rows == m.rows;
  }

  /** A release clears the lease, and gives a failed or expired run another attempt as long as the bound of its snapshot allows. */
  lemma ReleaseOutcome(s: State, lease: Lease, outcome: Outcome)
    requires HoldsLease(s, lease) && Good(s.claims[lease].snapshot)
    ensures var c := s.claims[lease];
            var live, row, snap := s.rows[c.task], Apply(s, ReleaseClaim(lease, outcome)).rows[c.task], c.snapshot;
            && row.project == live.project && row.lease == None
            && (outcome.Settled? ==> row == Row(live.project, outcome.status, live.attempt, live.maxAttempts, None))
            && (!outcome.Settled? ==>
                  row == if snap.attempt < snap.maxAttempts
                         then Row(live.project, Queued, snap.attempt + 1, snap.maxAttempts, None)
                         else Row(live.project, Failed, snap.maxAttempts, snap.maxAttempts, None))
  {
  }

  // ---- Requests stay inside their project ----

  /** A request that has decided, or has written, read a row of its own project. */
  ghost predicate OwnSnapshot(s: State, pid: Pid) {
    pid in s.requests && (s.requests[pid].pc in {Decided, Won, Lost} || s.requests[pid].slot >= 0) ==>
      s.requests[pid].snapshot.project == s.requests[pid].project
  }

  lemma StepKeepsOwnSnapshot(s: State, step: Step, pid: Pid)
    requires OwnSnapshot(s, pid)
    ensures OwnSnapshot(Apply(s, step), pid)
  {
  }

  lemma {:induction false} DecidesOnOwnTask(steps: seq<Step>, pid: Pid)
    ensures OwnSnapshot(Run(steps), pid)
  {
    if steps != [] {
      DecidesOnOwnTask(steps[..|steps| - 1], pid);
      StepKeepsOwnSnapshot(Run(steps[..|steps| - 1]), steps[|steps| - 1], pid);
    }
  }

  /** The step does not move a task to another project. */
  predicate KeepsProject(s: State, step: Step) {
    step.WriteBack? && step.task in s.rows ==> step.row.project == s.rows[step.task].project
  }

  predicate ProjectsKept(steps: seq<Step>) {
    steps == [] || (ProjectsKept(steps[..|steps| - 1]) && KeepsProject(Run(steps[..|steps| - 1]), steps[|steps| - 1]))
  }

  predicate EntryInProject(e: Entry, p: ProjectId) {
    e.before.Some? && e.before.value.project == p && e.after.project == p
  }

  /** What pid has decided on is a row of its own project. */
  ghost predicate OwnDecision(s: State, pid: Pid) {
    pid in s.requests && s.requests[pid].pc == Decided ==>
      s.requests[pid].task in s.rows && s.rows[s.requests[pid].task].project == s.requests[pid].project
  }

  /** What pid has written is in the project p. */
  ghost predicate WritesIn(log: seq<Entry>, pid: Pid, p: ProjectId) {
    forall i :: 0 <= i < |log| && log[i].author == Handler(pid) ==> EntryInProject(log[i], p)
  }

  ghost predicate OwnTask(s: State, pid: Pid) {
    OwnDecision(s, pid) && (pid in s.requests ==> WritesIn(s.log, pid, s.requests[pid].project))
  }

  lemma StepKeepsOwnDecision(s: State, step: Step, pid: Pid)
    requires OwnDecision(s, pid) && KeepsProject(s, step)
    ensures OwnDecision(Apply(s, step), pid)
  {
  }

  /** A step appends at most one entry, and a request's own one is in its project. */
  lemma StepWrites(s: State, step: Step, pid: Pid)
    requires OwnDecision(s, pid)
    ensures var s' := Apply(s, step);
            && s.log <= s'.log && |s'.log| <= |s.log| + 1
            && (pid in s.requests ==> pid in s'.requests && s'.requests[pid].project == s.requests[pid].project)
            && (|s'.log| == |s.log| + 1 && s'.log[|s.log|].author == Handler(pid) ==>
                  pid in s.requests && EntryInProject(s'.log[|s.log|], s.requests[pid].project))
  {
  }

  lemma WritesInMore(log: seq<Entry>, log': seq<Entry>, pid: Pid, p: ProjectId)
    requires WritesIn(log, pid, p) && log <= log' && |log'| <= |log| + 1
    requires |log'| == |log| + 1 && log'[|log|].author == Handler(pid) ==> EntryInProject(log'[|log|], p)
    ensures WritesIn(log', pid, p)
  {
    assert forall i :: 0 <= i < |log| ==> log'[i] == log[i];
  }

  lemma NoWritesYet(s: State, pid: Pid, p: ProjectId)
    requires Inv(s) && pid !in s.requests
    ensures WritesIn(s.log, pid, p)
  {
    forall i | 0 <= i < |s.log| ensures s.log[i].author != Handler(pid) { assert EntryInv(s, i); }
  }

  lemma StepKeepsOwnTask(s: State, step: Step, pid: Pid)
    requires Inv(s) && OwnTask(s, pid) && KeepsProject(s, step)
    ensures OwnTask(Apply(s, step), pid)
  {
    var s' := Apply(s, step);
    StepKeepsOwnDecision(s, step, pid);
    StepWrites(s, step, pid);
    if pid in s'.requests {
      if pid !in s.requests { NoWritesYet(s, pid, s'.requests[pid].project); }
      WritesInMore(s.log, s'.log, pid, s'.requests[pid].project);
    }
  }

  lemma {:induction false} RunKeepsOwnTask(steps: seq<Step>, pid: Pid)
    requires ProjectsKept(steps)
    ensures OwnTask(Run(steps), pid)
  {
    if steps != [] {
      var init := steps[..|steps| - 1];
      RunKeepsOwnTask(init, pid);
      RunKeepsInv(init);
      StepKeepsOwnTask(Run(init), steps[|steps| - 1], pid);
    }
  }

  /**
   In every run in which no whole-row update moves a task to another project, a request writes rows of
   the project it is addressed to and no other: addressing another project's task never writes.
   */
  lemma {:induction false} WritesOwnProject(steps: seq<Step>, i: nat)
    requires ProjectsKept(steps)
    ensures var s := Run(steps);
            i < |s.log| && s.log[i].author.Handler? ==>
              && s.log[i].author.pid in s.requests
              && EntryInProject(s.log[i], s.requests[s.log[i].author.pid].project)
              && s.log[i].task == s.requests[s.log[i].author.pid].task
  {
    RunKeepsInv(steps);
    var s := Run(steps);
    if i < |s.log| && s.log[i].author.Handler? {
      assert EntryInv(s, i);
      RunKeepsOwnTask(steps, s.log[i].author.pid);
      assert EntryInProject(s.log[i], s.requests[s.log[i].author.pid].project);
    }
  }

  // ---- The queue ----

  predicate RetryDone(r: Request, t: TaskId) {
    r.kind.Retry? && r.task == t && r.pc == Answered(Ok)
  }

  /** The retries of t that were answered with success. */
  function Retried(requests: map<Pid, Request>, t: TaskId): set<Pid> {
    set pid | pid in requests && RetryDone(requests[pid], t)
  }

  lemma RetriedAfter(requests: map<Pid, Request>, pid: Pid, r: Request, t: TaskId)
    requires pid in requests ==> !RetryDone(requests[pid], t)
    ensures |Retried(requests[pid := r], t)| == |Retried(requests, t)| + if RetryDone(r, t) then 1 else 0
  {
    assert Retried(requests[pid := r], t) == Retried(requests, t) + if RetryDone(r, t) then {pid} else {};
  }

  lemma RespondQueues(s: State, pid: Pid, enqueueFails: bool, t: TaskId)
    requires pid in s.requests && (s.requests[pid].pc == Won || s.requests[pid].pc == Lost)
    requires multiset(s.queue)[t] == |Retried(s.requests, t)|
    ensures var s' := ApplyRespond(s, pid, s.requests[pid], enqueueFails);
            multiset(s'.queue)[t] == |Retried(s'.requests, t)|
  {
    var r := s.requests[pid];
    RetriedAfter(s.requests, pid, r.(pc := Answered(FinalAnswer(r, enqueueFails))), t);
  }

  lemma StepQueues(s: State, step: Step, t: TaskId)
    requires multiset(s.queue)[t] == |Retried(s.requests, t)|
    ensures multiset(Apply(s, step).queue)[t] == |Retried(Apply(s, step).requests, t)|
  {
    var s' := Apply(s, step);
    if s' != s {
      match step
      case Submit(pid, _, _, _) => RetriedAfter(s.requests, pid, s'.requests[pid], t);
      case Read(pid, _, _) => RetriedAfter(s.requests, pid, s'.requests[pid], t);
      case Execute(pid, _, _) => RetriedAfter(s.requests, pid, s'.requests[pid], t);
      case Respond(pid, enqueueFails) => RespondQueues(s, pid, enqueueFails, t);
      case _ =>
    }
  }

  /** A task is put on the queue once for every retry of it that is answered with success, and never otherwise. */
  lemma {:induction false} QueuedOncePerRetry(steps: seq<Step>, t: TaskId)
    ensures multiset(Run(steps).queue)[t] == |Retried(Run(steps).requests, t)|
  {
    if steps == [] {
      assert Retried(INITIAL.requests, t) == {};
    } else {
      QueuedOncePerRetry(steps[..|steps| - 1], t);
      StepQueues(Run(steps[..|steps| - 1]), steps[|steps| - 1], t);
    }
  }

  /**
   A request moves a row to QUEUED exactly when it wins a retry, and the live row it then finds is
   finished exactly when it is not PENDING.
   */
  lemma {:induction false} RetryWrites(steps: seq<Step>, i: nat)
    ensures var s := Run(steps);
            i < |s.log| && s.log[i].author.Handler? ==>
              && s.log[i].author.pid in s.requests
              && (s.log[i].after.status == Queued <==> s.requests[s.log[i].author.pid].kind.Retry?)
              && (s.log[i].after.status == Queued ==>
                    && s.log[i].before.Some? && s.log[i].after.lease == None
                    && (Retryable(s.log[i].before.value.status) <==> s.log[i].before.value.status != Pending))
  {
    RunKeepsInv(steps);
    if i < |Run(steps).log| { assert EntryInv(Run(steps), i); }
  }

  /** If t is QUEUED after the first i writes and not after the first j, one of the writes between took it out. */
  lemma {:induction false} LeftQueue(log: seq<Entry>, t: TaskId, i: nat, j: nat) returns (k: nat)
    requires i < j <= |log|
    requires Replay(log[..i], t).Some? && Replay(log[..i], t).value.status == Queued
    requires Replay(log[..j], t).Some? && Replay(log[..j], t).value.status != Queued
    ensures i <= k < j && log[k].task == t && log[k].after.status != Queued
    decreases j
  {
    assert log[..j][..j - 1] == log[..j - 1] && log[..j][j - 1] == log[j - 1];
    if log[j - 1].task == t {
      k := j - 1;
    } else {
      assert Replay(log[..j], t) == Replay(log[..j - 1], t);
      k := LeftQueue(log, t, i, j - 1);
    }
  }

  /**
   Of two retries that both win on one task, the later one finds a task that something other
   than a retry took out of the queue in between: two clicks on one finished run cannot both win.
   */
  lemma SecondWinNeedsAnotherRun(steps: seq<Step>, i: nat, j: nat) returns (k: nat)
    requires var s := Run(steps);
             && i < j < |s.log| && s.log[i].task == s.log[j].task && s.log[i].author.Handler? && s.log[j].author.Handler?
             && s.log[i].after.status == Queued && s.log[j].after.status == Queued
    ensures var s := Run(steps);
            && i < k < j && s.log[k].task == s.log[i].task && s.log[k].after.status != Queued
            && (s.log[k].author.Handler? ==> s.log[k].author.pid in s.requests && !s.requests[s.log[k].author.pid].kind.Retry?)
  {
    var s := Run(steps);
    RetryFindsOther(steps, j);
    ReplayLast(s.log, i);
    k := LeftQueue(s.log, s.log[i].task, i + 1, j);
    RetryWrites(steps, k);
  }

  lemma {:induction false} RetryFindsOther(steps: seq<Step>, j: nat)
    requires var s := Run(steps);
             j < |s.log| && s.log[j].author.Handler? && s.log[j].after.status == Queued
    ensures var s := Run(steps);
            var live := Replay(s.log[..j], s.log[j].task);
            live.Some? && live.value.status != Queued
  {
    RunKeepsInv(steps);
    assert EntryInv(Run(steps), j);
  }

  lemma ReplayLast(log: seq<Entry>, i: nat)
    requires i < |log|
    ensures Replay(log[..i + 1], log[i].task) == Some(log[i].after)
  {
    assert log[..i + 1][i] == log[i];
  }

  // ---- From a finished status back to the queue ----

  /** In s, this step is the statement of a retry of t, and its guard lets it through. */
  predicate WinsRetry(s: State, step: Step, t: TaskId) {
    && step.Execute? && !step.fault && step.pid in s.requests && s.requests[step.pid].pc == Decided
    && s.requests[step.pid].kind.Retry? && s.requests[step.pid].task == t
    && t in s.rows && Requeueable(s.rows[t].status)
  }

  /** The scheduler gives a run with this outcome another attempt. */
  predicate TriesAgain(snap: Row, outcome: Outcome) {
    match outcome
    case Settled(st) => st == Queued
    case RunFailed => AtLeastOne(snap.attempt) < AtLeastOne(snap.maxAttempts)
    case LeaseExpired => snap.attempt + 1 <= AtLeastOne(snap.maxAttempts)
  }

  /** In s, this step is a release of t's lease that puts t back on the queue. */
  predicate ReleasesToQueue(s: State, step: Step, t: TaskId) {
    && step.ReleaseClaim? && HoldsLease(s, step.lease) && s.claims[step.lease].task == t
    && TriesAgain(s.claims[step.lease].snapshot, step.outcome)
  }

  /** This step sets t to st without looking at its status. */
  predicate SetsOutright(step: Step, t: TaskId, st: Status) {
    || (step.SetStatus? && step.task == t && step.status == st)
    || (step.WriteBack? && step.task == t && step.row.status == st && Good(step.row))
  }

  /**
   One step: a finished task goes back to QUEUED exactly if the step is a winning retry, a release of a
   lease the row still carries, or an outright write. Without a lease on the row no release does it.
   */
  lemma BackToQueueIff(s: State, step: Step, t: TaskId)
    requires t in s.rows && Terminal(s.rows[t].status)
    ensures t in Apply(s, step).rows
    ensures Apply(s, step).rows[t].status == Queued <==>
              WinsRetry(s, step, t) || ReleasesToQueue(s, step, t) || SetsOutright(step, t, Queued)
    ensures ReleasesToQueue(s, step, t) ==> s.rows[t].lease == Some(step.lease)
    ensures s.rows[t].lease == None ==>
              (Apply(s, step).rows[t].status == Queued <==> WinsRetry(s, step, t) || SetsOutright(step, t, Queued))
  {
  }

  /** The finished statuses. */
  lemma TerminalIff(st: Status)
    ensures Terminal(st) <==> st in {Completed, Failed, Cancelled, Closed}
  {
  }

  predicate FinishedToQueued(e: Entry) {
    e.before.Some? && Terminal(e.before.value.status) && e.after.status == Queued
  }

  predicate QueuesOutright(step: Step) {
    (step.SetStatus? && step.status == Queued) || (step.WriteBack? && step.row.status == Queued && Good(step.row))
  }

  /** No other part of the daemon sets a task to QUEUED outright. */
  predicate NoOutrightQueueing(steps: seq<Step>) {
    forall i :: 0 <= i < |steps| ==> !QueuesOutright(steps[i])
  }

  /** In s, this step is a release that takes a finished task back to the queue. */
  predicate ReleasesFinished(s: State, step: Step) {
    && step.ReleaseClaim? && HoldsLease(s, step.lease) && Terminal(s.rows[s.claims[step.lease].task].status)
    && TriesAgain(s.claims[step.lease].snapshot, step.outcome)
  }

  /** In s, this step takes a finished task back to the queue, and is not a retry's. */
  predicate UndoesFinish(s: State, step: Step) {
    || ReleasesFinished(s, step)
    || (QueuesOutright(step) && step.task in s.rows && Terminal(s.rows[step.task].status))
  }

  /** The log entries of one step: at most one, and which moves from finished to QUEUED are the daemon's. */
  lemma StepLogs(s: State, step: Step)
    ensures var s' := Apply(s, step);
            && s.log <= s'.log && |s'.log| <= |s.log| + 1
            && (UndoesFinish(s, step) ==> |s'.log| == |s.log| + 1)
            && (|s'.log| == |s.log| + 1 ==>
                  && (FinishedToQueued(s'.log[|s.log|]) && s'.log[|s.log|].author == Daemon <==> UndoesFinish(s, step))
                  && (ReleasesFinished(s, step) ==> s'.log[|s.log|].before.value.lease.Some?))
  {
  }

  /** In every run, a finished task goes back to QUEUED by a winning retry, or its row still carried a lease. */
  lemma {:induction false} FinishedToQueuedMoves(steps: seq<Step>, i: nat)
    requires NoOutrightQueueing(steps)
    ensures var s := Run(steps);
            i < |s.log| && FinishedToQueued(s.log[i]) ==>
              || s.log[i].before.value.lease.Some?
              || (s.log[i].author.Handler? && s.log[i].author.pid in s.requests && s.requests[s.log[i].author.pid].kind.Retry?)
  {
    RetryWrites(steps, i);
    DaemonMoves(steps);
    if i < |Run(steps).log| { assert DaemonMoveLeased(Run(steps).log[i]); }
  }

  /** The daemon's moves from finished to QUEUED are of rows with a lease. */
  ghost predicate DaemonMovesLeased(log: seq<Entry>) {
    forall i :: 0 <= i < |log| ==> DaemonMoveLeased(log[i])
  }

  predicate DaemonMoveLeased(e: Entry) {
    FinishedToQueued(e) && e.author == Daemon ==> e.before.value.lease.Some?
  }

  lemma DaemonMovesStep(log: seq<Entry>, log': seq<Entry>)
    requires DaemonMovesLeased(log) && log <= log' && |log'| <= |log| + 1
    requires |log'| == |log| + 1 ==> DaemonMoveLeased(log'[|log|])
    ensures DaemonMovesLeased(log')
  {
    assert forall i :: 0 <= i < |log| ==> log'[i] == log[i];
  }

  lemma {:induction false} DaemonMoves(steps: seq<Step>)
    requires NoOutrightQueueing(steps)
    ensures DaemonMovesLeased(Run(steps).log)
  {
    if steps != [] {
      var init := steps[..|steps| - 1];
      DaemonMoves(init);
      StepLogs(Run(init), steps[|steps| - 1]);
      DaemonMovesStep(Run(init).log, Run(steps).log);
    }
  }

  /** No step of the run takes a finished task back to the queue but a retry's. */
  predicate NeverUndone(steps: seq<Step>) {
    steps == [] || (NeverUndone(steps[..|steps| - 1]) && !UndoesFinish(Run(steps[..|steps| - 1]), steps[|steps| - 1]))
  }

  ghost predicate AllByRetry(log: seq<Entry>) {
    forall i :: 0 <= i < |log| && FinishedToQueued(log[i]) ==> log[i].author.Handler?
  }

  /**
   Every move of a finished task to QUEUED in a run is a retry's, if and only if no step of the run
   releases a finished task that still carries its lease, or sets one to QUEUED outright.
   */
  lemma {:induction false} AllByRetryIff(steps: seq<Step>)
    ensures AllByRetry(Run(steps).log) <==> NeverUndone(steps)
  {
    if steps != [] {
      var init, last := steps[..|steps| - 1], steps[|steps| - 1];
      AllByRetryIff(init);
      StepLogs(Run(init), last);
      AllByRetryStep(Run(init).log, Run(steps).log);
    }
  }

  lemma AllByRetryStep(log: seq<Entry>, log': seq<Entry>)
    requires log <= log' && |log'| <= |log| + 1
    ensures AllByRetry(log') <==>
            AllByRetry(log) && (|log'| == |log| + 1 && FinishedToQueued(log'[|log|]) ==> log'[|log|].author.Handler?)
  {
    assert forall i :: 0 <= i < |log| ==> log'[i] == log[i];
  }

  lemma {:induction false} RunExtends(steps: seq<Step>, step: Step)
    ensures Run(steps + [step]) == Apply(Run(steps), step)
  {
  }

  // ---- Runs in which the promises fail ----

  /** A step of a request or under a lease, no outright write of a row. */
  predicate Guarded(step: Step) {
    !step.SetStatus? && !step.WriteBack?
  }

  const LEASED_ROW := Row(1, Leased, 1, 3, Some(9))
  const CANCEL_DECIDED := Request(Cancel, 7, 1, Decided, LEASED_ROW, -1)
  const CANCEL_DONE := Request(Cancel, 7, 1, Answered(Ok), LEASED_ROW, 2)

  /** A run that creates and leases a task, and nothing else. */
  lemma TaskLeased() returns (steps: seq<Step>)
    ensures var s := Run(steps);
            s.rows == map[7 := LEASED_ROW] && s.requests == map[] && s.claims == map[9 := Claim(7, LEASED_ROW)] && |s.log| == 2
    ensures forall i :: 0 <= i < |steps| ==> Guarded(steps[i])
  {
    RunExtends([], CreateRow(7, 1, 1, 3));
    steps := [] + [CreateRow(7, 1, 1, 3)];
    RunExtends(steps, ClaimTask(7, 9));
    steps := steps + [ClaimTask(7, 9)];
  }

  lemma CancelDecided() returns (steps: seq<Step>)
    ensures var s := Run(steps);
            && s.rows == map[7 := LEASED_ROW] && s.requests == map[0 := CANCEL_DECIDED]
            && s.claims == map[9 := Claim(7, LEASED_ROW)] && |s.log| == 2
    ensures forall i :: 0 <= i < |steps| ==> Guarded(steps[i])
  {
    steps := TaskLeased();
    RunExtends(steps, Submit(0, Cancel, 7, 1));
    steps := steps + [Submit(0, Cancel, 7, 1)];
    RunExtends(steps, Read(0, false, false));
    steps := steps + [Read(0, false, false)];
  }

  lemma CancelCommitted() returns (steps: seq<Step>)
    ensures var s := Run(steps);
            && s.rows == map[7 := LEASED_ROW.(status := Cancelled)]
            && s.requests == map[0 := CANCEL_DECIDED.(pc := Won, slot := 2)]
            && s.claims == map[9 := Claim(7, LEASED_ROW)] && |s.log| == 3
    ensures forall i :: 0 <= i < |steps| ==> Guarded(steps[i])
  {
    steps := CancelDecided();
    RunExtends(steps, Execute(0, false, false));
    steps := steps + [Execute(0, false, false)];
  }

  /** A run in which a leased task is cancelled, and the cancel answered with success. */
  lemma CancelledWhileLeased() returns (steps: seq<Step>)
    ensures var s := Run(steps);
            && s.rows == map[7 := LEASED_ROW.(status := Cancelled)]
            && s.requests == map[0 := CANCEL_DONE] && s.claims == map[9 := Claim(7, LEASED_ROW)] && |s.log| == 3
    ensures forall i :: 0 <= i < |steps| ==> Guarded(steps[i])
  {
    steps := CancelCommitted();
    RunExtends(steps, Respond(0, false));
    steps := steps + [Respond(0, false)];
  }

  /**
   A cancel leaves the lease on the row, and a release is gated on the lease alone: a cancel that was
   answered with success is undone when the worker's run fails, with no retry in the whole run.
   */
  lemma CancelIsUndone() returns (steps: seq<Step>)
    ensures var s := Run(steps);
            && s.requests == map[0 := CANCEL_DONE] && s.rows == map[7 := Row(1, Queued, 2, 3, None)]
            && |s.log| == 4 && s.log[3] == Entry(Daemon, 7, Some(Row(1, Cancelled, 1, 3, Some(9))), Row(1, Queued, 2, 3, None))
    ensures forall i :: 0 <= i < |steps| ==> Guarded(steps[i])
  {
    steps := CancelledWhileLeased();
    RunExtends(steps, ReleaseClaim(9, RunFailed));
    steps := steps + [ReleaseClaim(9, RunFailed)];
  }

  /** Nor need it end in QUEUED: with no attempt left the worker's release makes the cancelled task FAILED. */
  lemma CancelEndsFailed() returns (steps: seq<Step>)
    ensures var s := Run(steps);
            s.requests == map[0 := CANCEL_DONE] && s.rows == map[7 := Row(1, Failed, 1, 3, None)]
    ensures forall i :: 0 <= i < |steps| ==> Guarded(steps[i])
  {
    steps := CancelledWhileLeased();
    RunExtends(steps, ReleaseClaim(9, Settled(Failed)));
    steps := steps + [ReleaseClaim(9, Settled(Failed))];
  }

  // ---- When a cancel stands ----

  /** In s, this step takes t out of CANCELLED: a winning retry, a release of the lease t carries, or an outright write. */
  predicate LeavesCancelled(s: State, step: Step, t: TaskId) {
    || WinsRetry(s, step, t)
    || (step.ReleaseClaim? && HoldsLease(s, step.lease) && s.claims[step.lease].task == t && step.outcome != Settled(Cancelled))
    || (step.SetStatus? && step.task == t && step.status != Cancelled)
    || (step.WriteBack? && step.task == t && step.row.status != Cancelled && Good(step.row))
  }

  predicate IsCancelled(s: State, t: TaskId) {
    t in s.rows && s.rows[t].status == Cancelled
  }

  /** One step: a cancelled task is cancelled no more exactly then. */
  lemma LeavesCancelledIff(s: State, step: Step, t: TaskId)
    requires IsCancelled(s, t)
    ensures t in Apply(s, step).rows && (Apply(s, step).rows[t].status != Cancelled <==> LeavesCancelled(s, step, t))
  {
  }

  /** s continued with more steps. */
  function Continue(s: State, more: seq<Step>): State {
    if more == [] then s else Apply(Continue(s, more[..|more| - 1]), more[|more| - 1])
  }

  lemma {:induction false} RunContinues(steps: seq<Step>, more: seq<Step>)
    ensures Run(steps + more) == Continue(Run(steps), more)
  {
    if more == [] {
      assert steps + more == steps;
    } else {
      assert (steps + more)[..|steps + more| - 1] == steps + more[..|more| - 1];
      RunContinues(steps, more[..|more| - 1]);
    }
  }

  /** t is cancelled in s and after every one of the steps that follow. */
  predicate StaysCancelled(s: State, more: seq<Step>, t: TaskId) {
    IsCancelled(Continue(s, more), t) && (more == [] || StaysCancelled(s, more[..|more| - 1], t))
  }

  /** None of the steps takes t out of CANCELLED when its turn comes. */
  predicate NoneLeaves(s: State, more: seq<Step>, t: TaskId) {
    more == [] ||
    (NoneLeaves(s, more[..|more| - 1], t) && !LeavesCancelled(Continue(s, more[..|more| - 1]), more[|more| - 1], t))
  }

  lemma {:induction false} StaysCancelledIff(s: State, more: seq<Step>, t: TaskId)
    requires IsCancelled(s, t)
    ensures StaysCancelled(s, more, t) <==> NoneLeaves(s, more, t)
  {
    if more != [] {
      var init := more[..|more| - 1];
      StaysCancelledIff(s, init, t);
      if StaysCancelled(s, init, t) {
        LeavesCancelledIff(Continue(s, init), more[|more| - 1], t);
      }
    }
  }

  /**
   A cancel of either kind that wins makes its task CANCELLED, and the task stays CANCELLED, whatever
   follows, if and only if no later step is a winning retry of it, a release of the lease it still
   carries to anything but CANCELLED, or an outright write of another status.
   */
  lemma {:induction false} CancelStandsIff(steps: seq<Step>, pid: Pid, replyLost: bool, more: seq<Step>)
    requires var s := Run(steps);
             && pid in s.requests && s.requests[pid].pc == Decided && !s.requests[pid].kind.Retry?
             && s.requests[pid].task in s.rows && Cancellable(s.rows[s.requests[pid].task].status)
    ensures var t, s' := Run(steps).requests[pid].task, Run(steps + [Execute(pid, false, replyLost)]);
            && IsCancelled(s', t) && s'.rows[t].lease == Run(steps).rows[t].lease
            && (StaysCancelled(s', more, t) <==> NoneLeaves(s', more, t))
            && Continue(s', more) == Run(steps + [Execute(pid, false, replyLost)] + more)
  {
    RunExtends(steps, Execute(pid, false, replyLost));
    RunContinues(steps + [Execute(pid, false, replyLost)], more);
    StaysCancelledIff(Run(steps + [Execute(pid, false, replyLost)]), more, Run(steps).requests[pid].task);
  }

  // ---- A retry on a PENDING task ----

  const FAILED_ROW := Row(1, Failed, 1, 3, None)

  const STALE_RETRY := Request(Retry(false), 7, 1, Decided, FAILED_ROW, -1)

  lemma TaskFailed() returns (steps: seq<Step>)
    ensures var s := Run(steps);
            s.rows == map[7 := FAILED_ROW] && s.requests == map[] && s.claims.Keys == {9}
    ensures forall i :: 0 <= i < |steps| ==> Guarded(steps[i])
  {
    steps := TaskLeased();
    RunExtends(steps, ReleaseClaim(9, Settled(Failed)));
    steps := steps + [ReleaseClaim(9, Settled(Failed))];
  }

  /** Reading FAILED, a retry decides to go ahead. */
  lemma AnotherStaleRetry(steps: seq<Step>, pid: Pid) returns (more: seq<Step>)
    requires Run(steps).rows == map[7 := FAILED_ROW] && pid !in Run(steps).requests
    requires forall i :: 0 <= i < |steps| ==> Guarded(steps[i])
    ensures var s, s' := Run(steps), Run(more);
            s'.rows == s.rows && s'.requests == s.requests[pid := STALE_RETRY] && s'.claims == s.claims
    ensures forall i :: 0 <= i < |more| ==> Guarded(more[i])
  {
    RunExtends(steps, Submit(pid, Retry(false), 7, 1));
    more := steps + [Submit(pid, Retry(false), 7, 1)];
    RunExtends(more, Read(pid, false, false));
    more := more + [Read(pid, false, false)];
  }

  /** Two retries have decided on FAILED, and the second has won. */
  lemma SecondOfTwoWins() returns (steps: seq<Step>)
    ensures var s := Run(steps);
            && s.rows == map[7 := Row(1, Queued, 2, 3, None)] && s.claims.Keys == {9}
            && 0 in s.requests && s.requests[0] == STALE_RETRY
    ensures forall i :: 0 <= i < |steps| ==> Guarded(steps[i])
  {
    steps := TaskFailed();
    steps := AnotherStaleRetry(steps, 0);
    steps := AnotherStaleRetry(steps, 1);
    RunExtends(steps, Execute(1, false, false));
    steps := steps + [Execute(1, false, false)];
  }

  /** The worker of that next attempt then releases the task as PENDING. */
  lemma ReleasedAsPending() returns (steps: seq<Step>)
    ensures var s := Run(steps);
            s.rows == map[7 := Row(1, Pending, 2, 3, None)] && 0 in s.requests && s.requests[0] == STALE_RETRY
    ensures forall i :: 0 <= i < |steps| ==> Guarded(steps[i])
  {
    steps := SecondOfTwoWins();
    RunExtends(steps, ClaimTask(7, 10));
    steps := steps + [ClaimTask(7, 10)];
    RunExtends(steps, ReleaseClaim(10, Settled(Pending)));
    steps := steps + [ReleaseClaim(10, Settled(Pending))];
  }

  /**
   The handler and the repository interface speak of finished tasks only, the statement also takes
   PENDING ones: a retry that read FAILED can land on a task that has meanwhile become PENDING. (By RetryWrites, PENDING is
   the only live status for which that can happen.)
   */
  lemma RetryOverwritesPending() returns (steps: seq<Step>, i: nat)
    ensures var s := Run(steps);
            i < |s.log| && s.log[i] == Entry(Handler(0), 7, Some(Row(1, Pending, 2, 3, None)), Row(1, Queued, 2, 3, None))
    ensures forall i :: 0 <= i < |steps| ==> Guarded(steps[i])
  {
    steps := ReleasedAsPending();
    i := |Run(steps).log|;
    RunExtends(steps, Execute(0, false, false));
    steps := steps + [Execute(0, false, false)];
  }
}
