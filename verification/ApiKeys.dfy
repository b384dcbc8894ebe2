/**
 The API-key handlers: create, rotate, revoke and the two updates. Each lists the
 keys of its project, checks the row it found in that list, and then writes by
 key identifier alone. Any number of requests interleave freely.
 */
module ApiKeys {
  type KeyId = nat
  type ProjectId = nat
  type Pid = nat

  /** `attributes` stands for everything a rotation inherits beside the two updatable columns. */
  datatype Key = Key(project: ProjectId, attributes: nat, workflows: seq<string>, allowPush: bool, revoked: bool)

  datatype Kind =
    | Create(attributes: nat)
    | Rotate
    | Revoke
    | SetWorkflows(workflows: seq<string>)
    | SetAllowPush(allowPush: bool)

  datatype Answer = Ok | NotFound | AlreadyRevoked | Failed
  datatype Pc = Start | Listed | Minted | Done(answer: Answer)

  /** A request addressed to one project. `prior` is the row it found; `replacement` the replacement a rotation minted. */
  datatype Request = Request(kind: Kind, project: ProjectId, key: KeyId, pc: Pc, prior: Key, replacement: KeyId)

  /** `revoker` records which request's statement revoked a key. */
  datatype State = State(rows: map<KeyId, Key>, requests: map<Pid, Request>, revoker: map<KeyId, Pid>)

  datatype Action =
    | List(fault: bool)
    | Write(id: KeyId, fault: bool, replyLost: bool)
    | RevokePrior(fault: bool)

  datatype Step =
    | Submit(pid: Pid, kind: Kind, project: ProjectId, key: KeyId)
    | Act(pid: Pid, action: Action)

  const NO_KEY := Key(0, 0, [], false, false)
  const INITIAL := State(map[], map[], map[])

  function MoveTo(s: State, pid: Pid, r: Request, pc: Pc): State {
    s.(requests := s.requests[pid := r.(pc := pc)])
  }

  /** The list scoped to the request's project is the ownership check. */
  function AfterList(s: State, r: Request, fault: bool): Request {
    if fault then r.(pc := Done(Failed))
    else if r.key !in s.rows || s.rows[r.key].project != r.project then r.(pc := Done(NotFound))
    else if s.rows[r.key].revoked && r.kind != Revoke then r.(pc := Done(AlreadyRevoked))
    else r.(pc := Listed, prior := s.rows[r.key])
  }

  /** UPDATE ... SET revoked_at WHERE id = $1 AND revoked_at IS NULL: keyed on the identifier alone. */
  function RevokeRow(s: State, pid: Pid, k: KeyId): State {
    if k in s.rows && !s.rows[k].revoked then
      s.(rows := s.rows[k := s.rows[k].(revoked := true)], revoker := s.revoker[k := pid])
    else s
  }

  function InsertRow(s: State, k: KeyId, row: Key): State {
    s.(rows := s.rows[k := row])
  }

  function RotatedCopy(prior: Key): Key {
    prior.(revoked := false)
  }

  function UpdatedRow(kind: Kind, row: Key): Key {
    match kind
    case SetWorkflows(w) => row.(workflows := w)
    case SetAllowPush(b) => row.(allowPush := b)
    case _ => row
  }

  /** What a request's write does to the rows. */
  function WriteEffect(s: State, pid: Pid, r: Request, id: KeyId): State {
    match r.kind
    case Create(attributes) => if id in s.rows then s else InsertRow(s, id, Key(r.project, attributes, [], false, false))
    case Rotate => if id in s.rows then s else InsertRow(s, id, RotatedCopy(r.prior))
    case Revoke => RevokeRow(s, pid, r.key)
    case _ => if r.key in s.rows then InsertRow(s, r.key, UpdatedRow(r.kind, s.rows[r.key])) else s
  }

  predicate WriteRefused(s: State, r: Request, id: KeyId) {
    match r.kind
    case Create(_) => id in s.rows
    case Rotate => id in s.rows
    case Revoke => false
    case _ => r.key !in s.rows
  }

  /** A write whose reply is lost has committed, and is answered as a failure. */
  function AfterWrite(s: State, r: Request, id: KeyId, replyLost: bool): Request {
    if WriteRefused(s, r, id) || (replyLost && r.kind != Rotate) then r.(pc := Done(Failed))
    else if r.kind != Rotate then r.(pc := Done(Ok))
    else r.(replacement := id, pc := if replyLost then Done(Failed) else Minted)
  }

  predicate Enabled(r: Request, action: Action) {
    match action
    case List(_) => r.pc == Start
    case Write(_, _, _) => r.pc == Listed
    case RevokePrior(_) => r.pc == Minted
  }

  function Effect(s: State, pid: Pid, r: Request, action: Action): (s': State)
    ensures s'.requests == s.requests
  {
    match action
    case List(_) => s
    case Write(id, fault, _) => if fault then s else WriteEffect(s, pid, r, id)
    case RevokePrior(fault) => if fault then s else RevokeRow(s, pid, r.key)
  }

  function RequestAfter(s: State, r: Request, action: Action): Request {
    match action
    case List(fault) => if r.kind.Create? then r.(pc := Listed) else AfterList(s, r, fault)
    case Write(id, fault, replyLost) => if fault then r.(pc := Done(Failed)) else AfterWrite(s, r, id, replyLost)
    case RevokePrior(_) => r.(pc := Done(Ok)) // an error is logged only: the caller already has the new key
  }

  function ApplyAction(s: State, pid: Pid, r: Request, action: Action): State {
    if Enabled(r, action)
    then Effect(s, pid, r, action).(requests := s.requests[pid := RequestAfter(s, r, action)])
    else s
  }

  function Apply(s: State, step: Step): State {
    match step
    case Submit(pid, kind, p, key) =>
      if pid in s.requests then s else s.(requests := s.requests[pid := Request(kind, p, key, Start, NO_KEY, 0)])
    case Act(pid, action) => if pid in s.requests then ApplyAction(s, pid, s.requests[pid], action) else s
  }

  function Run(s: State, steps: seq<Step>): State {
    if steps == [] then s else Apply(Run(s, steps[..|steps| - 1]), steps[|steps| - 1])
  }

  // ---- The invariant ----

  predicate MintedBy(r: Request) {
    r.kind == Rotate && (r.pc == Minted || r.pc == Done(Ok))
  }

  ghost predicate RequestInv(s: State, pid: Pid)
    requires pid in s.requests
  {
    var r := s.requests[pid];
    && ((r.pc == Listed && !r.kind.Create?) || r.pc == Minted || (r.pc == Done(Ok) && !r.kind.Create?) ==>
          r.key in s.rows && s.rows[r.key].project == r.project && r.prior.project == r.project)
    && (r.pc == Minted ==> r.kind == Rotate)
    && (MintedBy(r) ==>
          && r.replacement in s.rows && r.replacement != r.key
          && s.rows[r.replacement].project == r.project && s.rows[r.replacement].attributes == r.prior.attributes
          && (r.replacement in s.revoker ==> s.revoker[r.replacement] != pid))
  }

  /** A key is revoked exactly when some request's statement revoked it, and a rotation revokes only what it replaced. */
  ghost predicate KeyInv(s: State, k: KeyId)
    requires k in s.rows
  {
    && (s.rows[k].revoked <==> k in s.revoker)
    && (k in s.revoker ==>
          && s.revoker[k] in s.requests
          && var r := s.requests[s.revoker[k]];
             r.key == k && r.project == s.rows[k].project && r.pc.Done? && (r.kind == Revoke || (r.kind == Rotate && r.pc == Done(Ok))))
  }

  ghost predicate Inv(s: State) {
    && (forall k :: k in s.revoker ==> k in s.rows)
    && (forall k :: k in s.rows ==> KeyInv(s, k))
    && (forall pid :: pid in s.requests ==> RequestInv(s, pid))
  }

  /** What a step may do to the rows: nothing to other projects, no deletion, no change of owner, no revival. */
  ghost predicate RowsOnlyGrow(s: State, s': State, project: ProjectId) {
    && (forall k :: k in s.rows ==>
          && k in s'.rows && s'.rows[k].project == s.rows[k].project && s'.rows[k].attributes == s.rows[k].attributes
          && (s.rows[k].revoked ==> s'.rows[k].revoked)
          && (s.rows[k].project != project ==> s'.rows[k] == s.rows[k]))
    && (forall k :: k in s'.rows && k !in s.rows ==> s'.rows[k].project == project && !s'.rows[k].revoked)
    && (forall k :: k in s.revoker ==> k in s'.revoker && s'.revoker[k] == s.revoker[k])
  }

  lemma RevokeIsLocal(s: State, pid: Pid, k: KeyId)
    requires k in s.rows && (k in s.revoker ==> s.rows[k].revoked)
    ensures RowsOnlyGrow(s, RevokeRow(s, pid, k), s.rows[k].project)
  {
  }

  lemma UpdateIsLocal(s: State, k: KeyId, kind: Kind)
    requires k in s.rows
    ensures RowsOnlyGrow(s, InsertRow(s, k, UpdatedRow(kind, s.rows[k])), s.rows[k].project)
  {
  }

  lemma InsertIsLocal(s: State, k: KeyId, row: Key)
    requires k !in s.rows && !row.revoked
    ensures RowsOnlyGrow(s, InsertRow(s, k, row), row.project)
  {
  }

  lemma EffectIsLocal(s: State, pid: Pid, action: Action)
    requires Inv(s) && pid in s.requests && Enabled(s.requests[pid], action)
    ensures RowsOnlyGrow(s, Effect(s, pid, s.requests[pid], action), s.requests[pid].project)
  {
    var r := s.requests[pid];
    assert RequestInv(s, pid);
    if action.RevokePrior? {
      assert KeyInv(s, r.key);
      RevokeIsLocal(s, pid, r.key);
    } else if action.Write? {
      match r.kind
      case Create(attributes) =>
        if action.id !in s.rows { InsertIsLocal(s, action.id, Key(r.project, attributes, [], false, false)); }
      case Rotate => if action.id !in s.rows { InsertIsLocal(s, action.id, RotatedCopy(r.prior)); }
      case Revoke => assert KeyInv(s, r.key); RevokeIsLocal(s, pid, r.key);
      case _ => UpdateIsLocal(s, r.key, r.kind);
    }
  }

  /** An action of a request deletes no row, revives none, changes no owner, and stays inside the request's project. */
  lemma ActionIsLocal(s: State, pid: Pid, action: Action)
    requires Inv(s) && pid in s.requests
    ensures RowsOnlyGrow(s, ApplyAction(s, pid, s.requests[pid], action), s.requests[pid].project)
  {
    if Enabled(s.requests[pid], action) { EffectIsLocal(s, pid, action); }
  }

  /** Revocations are recorded under the request's own name, and only of its own key. */
  lemma EffectRevokes(s: State, pid: Pid, r: Request, action: Action, k: KeyId)
    ensures var s' := Effect(s, pid, r, action);
            k in s'.revoker && k !in s.revoker ==> s'.revoker[k] == pid && k == r.key && k in s.rows
  {
  }

  lemma MintedInv(s: State, pid: Pid, id: KeyId)
    requires Inv(s) && pid in s.requests && s.requests[pid].pc == Listed && s.requests[pid].kind == Rotate && id !in s.rows
    ensures RequestInv(ApplyAction(s, pid, s.requests[pid], Write(id, false, false)), pid)
  {
    assert RequestInv(s, pid);
    assert id !in s.revoker;
  }

  lemma OwnRequestInv(s: State, pid: Pid, action: Action)
    requires Inv(s) && pid in s.requests && Enabled(s.requests[pid], action)
    ensures RequestInv(ApplyAction(s, pid, s.requests[pid], action), pid)
  {
    var r := s.requests[pid];
    assert RequestInv(s, pid);
    EffectIsLocal(s, pid, action);
    if action.Write? && !action.fault && !action.replyLost && r.kind == Rotate && action.id !in s.rows {
      MintedInv(s, pid, action.id);
    } else {
      EffectRevokes(s, pid, r, action, r.replacement);
    }
  }

  lemma OtherRequestInv(s: State, pid: Pid, action: Action, q: Pid)
    requires Inv(s) && pid in s.requests && q in s.requests && q != pid && Enabled(s.requests[pid], action)
    ensures RequestInv(ApplyAction(s, pid, s.requests[pid], action), q)
  {
    EffectIsLocal(s, pid, action);
    EffectRevokes(s, pid, s.requests[pid], action, s.requests[q].replacement);
    assert RequestInv(s, q);
  }

  /** A row that a statement leaves as it was, or inserts live, keeps its invariant if requests only move to an answer. */
  lemma MoveKeepsKeyInv(s: State, s': State, pid: Pid, k: KeyId)
    requires k in s.rows && KeyInv(s, k) && pid in s.requests && !s.requests[pid].pc.Done?
    requires k in s'.rows && s'.rows[k].project == s.rows[k].project && s'.rows[k].revoked == s.rows[k].revoked
    requires s'.revoker == s.revoker && pid in s'.requests && s'.requests == s.requests[pid := s'.requests[pid]]
    ensures KeyInv(s', k)
  {
  }

  lemma RevokeKeepsKeyInv(s: State, pid: Pid, r: Request, answer: Answer, k: KeyId)
    requires k in s.rows && KeyInv(s, k) && pid in s.requests && r == s.requests[pid] && !r.pc.Done?
    requires r.key in s.rows && s.rows[r.key].project == r.project && (r.kind == Revoke || (r.kind == Rotate && answer == Ok))
    ensures KeyInv(MoveTo(RevokeRow(s, pid, r.key), pid, r, Done(answer)), k)
  {
  }

  lemma ActionKeepsKeyInv(s: State, pid: Pid, action: Action, k: KeyId)
    requires Inv(s) && pid in s.requests && Enabled(s.requests[pid], action)
    requires k in ApplyAction(s, pid, s.requests[pid], action).rows
    ensures KeyInv(ApplyAction(s, pid, s.requests[pid], action), k)
  {
    var r, s' := s.requests[pid], ApplyAction(s, pid, s.requests[pid], action);
    assert RequestInv(s, pid);
    if k in s.rows {
      assert KeyInv(s, k);
      if action.Write? && !action.fault && r.kind == Revoke {
        RevokeKeepsKeyInv(s, pid, r, if action.replyLost then Failed else Ok, k);
      } else if action.RevokePrior? && !action.fault {
        RevokeKeepsKeyInv(s, pid, r, Ok, k);
      } else {
        MoveKeepsKeyInv(s, s', pid, k);
      }
    }
  }

  lemma ActionKeepsInv(s: State, pid: Pid, action: Action)
    requires Inv(s) && pid in s.requests
    ensures Inv(ApplyAction(s, pid, s.requests[pid], action))
  {
    var r, s' := s.requests[pid], ApplyAction(s, pid, s.requests[pid], action);
    if Enabled(r, action) {
      EffectIsLocal(s, pid, action);
      forall k | k in s'.revoker ensures k in s'.rows { EffectRevokes(s, pid, r, action, k); }
      forall k | k in s'.rows ensures KeyInv(s', k) { ActionKeepsKeyInv(s, pid, action, k); }
      forall q | q in s'.requests ensures RequestInv(s', q) {
        if q == pid { OwnRequestInv(s, pid, action); } else { OtherRequestInv(s, pid, action, q); }
      }
    }
  }

  lemma StepKeepsInv(s: State, step: Step)
    requires Inv(s)
    ensures Inv(Apply(s, step))
  {
    match step
    case Submit(pid, _, _, _) =>
      var s' := Apply(s, step);
      forall k | k in s'.rows ensures KeyInv(s', k) { assert KeyInv(s, k); }
      forall q | q in s'.requests ensures RequestInv(s', q) { if q in s.requests { assert RequestInv(s, q); } }
    case Act(pid, action) => if pid in s.requests { ActionKeepsInv(s, pid, action); }
  }

  lemma {:induction false} RunKeepsInv(s: State, steps: seq<Step>)
    requires Inv(s)
    ensures Inv(Run(s, steps))
  {
    if steps != [] {
      RunKeepsInv(s, steps[..|steps| - 1]);
      StepKeepsInv(Run(s, steps[..|steps| - 1]), steps[|steps| - 1]);
    }
  }

  // ---- Main results ----

  /** A request addressed to one project never changes another project's row, however stale its list is. */
  lemma {:induction false} OtherProjectsUntouched(steps: seq<Step>, pid: Pid, action: Action, k: KeyId)
    ensures var s, s' := Run(INITIAL, steps), Apply(Run(INITIAL, steps), Act(pid, action));
            k in s.rows && pid in s.requests && s.requests[pid].project != s.rows[k].project ==>
              k in s'.rows && s'.rows[k] == s.rows[k]
  {
    RunKeepsInv(INITIAL, steps);
    var s := Run(INITIAL, steps);
    if pid in s.requests { ActionIsLocal(s, pid, action); }
  }

  /** Rows keep their owner and a revoked row stays revoked, over every continuation of every run. */
  lemma {:induction false} RevokedForGood(s: State, more: seq<Step>, k: KeyId)
    requires Inv(s) && k in s.rows
    ensures var s' := Run(s, more);
            k in s'.rows && s'.rows[k].project == s.rows[k].project && (s.rows[k].revoked ==> s'.rows[k].revoked)
  {
    if more != [] {
      var init, last := more[..|more| - 1], more[|more| - 1];
      RevokedForGood(s, init, k);
      RunKeepsInv(s, init);
      var m := Run(s, init);
      if last.Act? && last.pid in m.requests { ActionIsLocal(m, last.pid, last.action); }
    }
  }

  /** In s, this step is the statement of an update of k. */
  predicate Updates(s: State, step: Step, k: KeyId) {
    && step.Act? && step.action.Write? && !step.action.fault
    && step.pid in s.requests && s.requests[step.pid].key == k && s.requests[step.pid].pc == Listed
    && (s.requests[step.pid].kind.SetWorkflows? || s.requests[step.pid].kind.SetAllowPush?)
  }

  /** An update stores what was asked for in its own column, and leaves every other column as it is. */
  lemma UpdateStores(s: State, pid: Pid, id: KeyId, replyLost: bool)
    requires pid in s.requests && s.requests[pid].pc == Listed && s.requests[pid].key in s.rows
    ensures var kind, k, s' := s.requests[pid].kind, s.requests[pid].key, Apply(s, Act(pid, Write(id, false, replyLost)));
            var row := s.rows[k];
            && (kind.SetAllowPush? ==>
                  s'.rows == s.rows[k := Key(row.project, row.attributes, row.workflows, kind.allowPush, row.revoked)])
            && (kind.SetWorkflows? ==>
                  s'.rows == s.rows[k := Key(row.project, row.attributes, kind.workflows, row.allowPush, row.revoked)])
  {
  }

  /** A create inserts a live key of its project, as asked for, with no workflow list and no push right. */
  lemma CreateStores(s: State, pid: Pid, id: KeyId, replyLost: bool)
    requires pid in s.requests && s.requests[pid].pc == Listed && s.requests[pid].kind.Create? && id !in s.rows
    ensures Apply(s, Act(pid, Write(id, false, replyLost))).rows ==
            s.rows[id := Key(s.requests[pid].project, s.requests[pid].kind.attributes, [], false, false)]
  {
  }

  /** A statement without fault is answered with success exactly if it committed and its reply came back; a rotation goes on. */
  lemma WriteAnswers(s: State, pid: Pid, id: KeyId, replyLost: bool)
    requires pid in s.requests && s.requests[pid].pc == Listed
    ensures var r, s' := s.requests[pid], Apply(s, Act(pid, Write(id, false, replyLost)));
            var commits := match r.kind
                           case Create(_) => id !in s.rows
                           case Rotate => id !in s.rows
                           case Revoke => true
                           case _ => r.key in s.rows;
            && s'.requests[pid].pc == (if !commits || replyLost then Done(Failed) else if r.kind == Rotate then Minted else Done(Ok))
            && (!commits ==> s'.rows == s.rows)
  {
  }

  /** A list or a statement that fails is answered with an error, and no row has changed. */
  lemma FaultAnswers(s: State, pid: Pid, id: KeyId, replyLost: bool)
    requires pid in s.requests
    ensures s.requests[pid].pc == Start && !s.requests[pid].kind.Create? ==>
              Apply(s, Act(pid, List(true))) == s.(requests := s.requests[pid := s.requests[pid].(pc := Done(Failed))])
    ensures s.requests[pid].pc == Listed ==>
              Apply(s, Act(pid, Write(id, true, replyLost))) == s.(requests := s.requests[pid := s.requests[pid].(pc := Done(Failed))])
  {
  }

  /** A rotation that has minted ends with success whether or not the old key could be revoked. */
  lemma RotationEnds(s: State, pid: Pid, fault: bool)
    requires pid in s.requests && s.requests[pid].pc == Minted
    ensures var r, s' := s.requests[pid], Apply(s, Act(pid, RevokePrior(fault)));
            && s'.requests[pid].pc == Done(Ok)
            && s'.rows == if !fault && r.key in s.rows then s.rows[r.key := s.rows[r.key].(revoked := true)] else s.rows
  {
  }

  /** The list: a key of another project is as good as none, and only a revoke goes on with a revoked key. */
  lemma ListAnswers(s: State, pid: Pid)
    requires pid in s.requests && s.requests[pid].pc == Start && !s.requests[pid].kind.Create?
    ensures var r, r' := s.requests[pid], Apply(s, Act(pid, List(false))).requests[pid];
            var own := r.key in s.rows && s.rows[r.key].project == r.project;
            && (r'.pc == Done(NotFound) <==> !own)
            && (r'.pc == Done(AlreadyRevoked) <==> own && s.rows[r.key].revoked && r.kind != Revoke)
            && (r'.pc == Listed <==> own && (r.kind == Revoke || !s.rows[r.key].revoked))
  {
  }

  lemma UpdatedByStep(s: State, step: Step, k: KeyId)
    requires k in s.rows
    ensures k in Apply(s, step).rows
    ensures !Updates(s, step, k) ==> Apply(s, step).rows[k].(revoked := s.rows[k].revoked) == s.rows[k]
  {
  }

  /** No step of the run updates k. */
  predicate NeverUpdated(steps: seq<Step>, k: KeyId) {
    steps == [] ||
    (NeverUpdated(steps[..|steps| - 1], k) && !Updates(Run(INITIAL, steps[..|steps| - 1]), steps[|steps| - 1], k))
  }

  /** The row is a copy of prior, up to revocation. */
  predicate Inherits(row: Key, prior: Key) {
    row.(revoked := prior.revoked) == prior
  }

  ghost predicate CopyIntact(s: State, pid: Pid) {
    pid in s.requests && MintedBy(s.requests[pid]) ==>
      s.requests[pid].replacement in s.rows && Inherits(s.rows[s.requests[pid].replacement], s.requests[pid].prior)
  }

  /** A request that has minted keeps what it noted down. */
  lemma MintedStays(s: State, step: Step, pid: Pid)
    requires pid in s.requests
    ensures var r, r' := s.requests[pid], Apply(s, step).requests[pid];
            && (MintedBy(r) ==> r'.replacement == r.replacement && r'.prior == r.prior && MintedBy(r'))
            && (MintedBy(r') && !MintedBy(r) ==>
                  && r.pc == Listed && r'.prior == r.prior && r'.replacement in Apply(s, step).rows
                  && Apply(s, step).rows[r'.replacement] == RotatedCopy(r.prior))
  {
  }

  lemma CopyStep(s: State, step: Step, pid: Pid)
    requires pid in s.requests && CopyIntact(s, pid)
    requires !Updates(s, step, Apply(s, step).requests[pid].replacement)
    ensures CopyIntact(Apply(s, step), pid)
  {
    MintedStays(s, step, pid);
    if MintedBy(s.requests[pid]) {
      UpdatedByStep(s, step, s.requests[pid].replacement);
    }
  }

  lemma {:induction false} CopyStaysIntact(steps: seq<Step>, pid: Pid)
    requires pid in Run(INITIAL, steps).requests && MintedBy(Run(INITIAL, steps).requests[pid])
    requires NeverUpdated(steps, Run(INITIAL, steps).requests[pid].replacement)
    ensures CopyIntact(Run(INITIAL, steps), pid)
  {
    var init, last := steps[..|steps| - 1], steps[|steps| - 1];
    var s := Run(INITIAL, init);
    if pid in s.requests {
      MintedStays(s, last, pid);
      if MintedBy(s.requests[pid]) {
        CopyStaysIntact(init, pid);
      }
      CopyStep(s, last, pid);
    }
  }

  /**
   A rotation revokes its old key only when the replacement is already there, with the old key's
   owner and attributes, and with its workflows and push right too unless the replacement was updated
   since, and it never revokes the replacement: if no other request revoked the replacement it is live,
   so rotation alone never leaves both dead.
   */
  lemma {:induction false} RotationNeverLeavesBothDead(steps: seq<Step>, pid: Pid)
    ensures var s := Run(INITIAL, steps);
            pid in s.requests && s.requests[pid].kind == Rotate
            && s.requests[pid].key in s.revoker && s.revoker[s.requests[pid].key] == pid ==>
              var r := s.requests[pid];
              && r.replacement != r.key && r.replacement in s.rows
              && s.rows[r.replacement].project == r.project && s.rows[r.replacement].attributes == r.prior.attributes
              && (NeverUpdated(steps, r.replacement) ==> Inherits(s.rows[r.replacement], r.prior))
              && (s.rows[r.replacement].revoked ==>
                    r.replacement in s.revoker && s.revoker[r.replacement] != pid && s.revoker[r.replacement] in s.requests
                    && s.requests[s.revoker[r.replacement]].key == r.replacement)
  {
    RunKeepsInv(INITIAL, steps);
    var s := Run(INITIAL, steps);
    if pid in s.requests && s.requests[pid].key in s.revoker && s.revoker[s.requests[pid].key] == pid {
      assert KeyInv(s, s.requests[pid].key) && RequestInv(s, pid);
      if s.requests[pid].replacement in s.rows { assert KeyInv(s, s.requests[pid].replacement); }
      if s.requests[pid].kind == Rotate && NeverUpdated(steps, s.requests[pid].replacement) { CopyStaysIntact(steps, pid); }
    }
  }

  lemma {:induction false} RunExtends(steps: seq<Step>, step: Step)
    ensures Run(INITIAL, steps + [step]) == Apply(Run(INITIAL, steps), step)
  {
  }

  /** A key of project 1 that request 1 has listed while it was live. */
  lemma StaleUpdateReachable() returns (steps: seq<Step>)
    ensures var s := Run(INITIAL, steps);
            && s.rows == map[5 := Key(1, 0, [], false, false)]
            && s.requests.Keys == {0, 1}
            && s.requests[1] == Request(SetAllowPush(true), 1, 5, Listed, Key(1, 0, [], false, false), 0)
  {
    RunExtends([], Submit(0, Create(0), 1, 0));
    steps := [] + [Submit(0, Create(0), 1, 0)];
    RunExtends(steps, Act(0, List(false)));
    steps := steps + [Act(0, List(false))];
    RunExtends(steps, Act(0, Write(5, false, false)));
    steps := steps + [Act(0, Write(5, false, false))];
    RunExtends(steps, Submit(1, SetAllowPush(true), 1, 5));
    steps := steps + [Submit(1, SetAllowPush(true), 1, 5)];
    RunExtends(steps, Act(1, List(false)));
    steps := steps + [Act(1, List(false))];
  }

  /** The update handlers promise to refuse a revoked key; a revocation between list and update slips past that check. */
  lemma UpdateCanLandOnRevokedKey() returns (steps: seq<Step>)
    ensures var s := Run(INITIAL, steps);
            1 in s.requests && s.requests[1].pc == Done(Ok) && 5 in s.rows && s.rows[5].revoked && s.rows[5].allowPush
  {
    steps := StaleUpdateReachable();
    RunExtends(steps, Submit(2, Revoke, 1, 5));
    steps := steps + [Submit(2, Revoke, 1, 5)];
    RunExtends(steps, Act(2, List(false)));
    steps := steps + [Act(2, List(false))];
    RunExtends(steps, Act(2, Write(0, false, false)));
    steps := steps + [Act(2, Write(0, false, false))];
    RunExtends(steps, Act(1, Write(0, false, false)));
    steps := steps + [Act(1, Write(0, false, false))];
  }

  /** In s, this step is a statement that revokes k: the write of a revoke of k, or the last one of its rotation. */
  predicate Revokes(s: State, step: Step, k: KeyId) {
    && step.Act? && step.pid in s.requests && s.requests[step.pid].key == k
    && match step.action
       case List(_) => false
       case Write(_, fault, _) => s.requests[step.pid].pc == Listed && s.requests[step.pid].kind == Revoke && !fault
       case RevokePrior(fault) => s.requests[step.pid].pc == Minted && !fault
  }

  /** One step: a live key is revoked by it exactly if it is such a statement. */
  lemma RevokedByStep(s: State, step: Step, k: KeyId)
    requires Inv(s) && k in s.rows && !s.rows[k].revoked
    ensures k in Apply(s, step).rows && (Apply(s, step).rows[k].revoked <==> Revokes(s, step, k))
  {
    if step.Act? && step.pid in s.requests {
      assert RequestInv(s, step.pid);
    }
  }

  lemma {:induction false} RevokedWhen(s: State, more: seq<Step>, k: KeyId) returns (i: nat)
    requires Inv(s) && k in s.rows && !s.rows[k].revoked && k in Run(s, more).rows && Run(s, more).rows[k].revoked
    ensures i < |more| && Revokes(Run(s, more[..i]), more[i], k)
  {
    var n := |more| - 1;
    var init := more[..n];
    RunKeepsInv(s, init);
    RevokedForGood(s, init, k);
    if Run(s, init).rows[k].revoked {
      i := RevokedWhen(s, init, k);
      assert init[..i] == more[..i] && init[i] == more[i];
    } else {
      RevokedByStep(Run(s, init), more[n], k);
      i := n;
    }
  }

  lemma {:induction false} RevokedFrom(s: State, more: seq<Step>, k: KeyId, i: nat)
    requires Inv(s) && k in s.rows && i < |more| && Revokes(Run(s, more[..i]), more[i], k)
    ensures k in Run(s, more).rows && Run(s, more).rows[k].revoked
  {
    var n := |more| - 1;
    var init := more[..n];
    RunKeepsInv(s, init);
    RevokedForGood(s, init, k);
    if i < n {
      assert init[..i] == more[..i] && init[i] == more[i];
      RevokedFrom(s, init, k, i);
      RevokedStays(Run(s, init), more[n], k);
    } else if Run(s, init).rows[k].revoked {
      RevokedStays(Run(s, init), more[n], k);
    } else {
      RevokedByStep(Run(s, init), more[n], k);
    }
  }

  /** A live key is revoked during a run if and only if one of the steps is such a statement. */
  lemma {:induction false} RevokedDuring(s: State, more: seq<Step>, k: KeyId)
    requires Inv(s) && k in s.rows && !s.rows[k].revoked
    ensures k in Run(s, more).rows
    ensures Run(s, more).rows[k].revoked <==> exists i :: 0 <= i < |more| && Revokes(Run(s, more[..i]), more[i], k)
  {
    RevokedForGood(s, more, k);
    if Run(s, more).rows[k].revoked {
      var i := RevokedWhen(s, more, k);
    }
    forall i | 0 <= i < |more| && Revokes(Run(s, more[..i]), more[i], k) ensures Run(s, more).rows[k].revoked {
      RevokedFrom(s, more, k, i);
    }
  }

  lemma RevokedStays(s: State, step: Step, k: KeyId)
    requires Inv(s) && k in s.rows && s.rows[k].revoked
    ensures k in Apply(s, step).rows && Apply(s, step).rows[k].revoked
  {
    if step.Act? && step.pid in s.requests { ActionIsLocal(s, step.pid, step.action); }
  }

  /** What a request asks for never changes. */
  lemma {:induction false} RequestsKeepTarget(s: State, more: seq<Step>, pid: Pid)
    requires pid in s.requests
    ensures pid in Run(s, more).requests
    ensures Run(s, more).requests[pid].key == s.requests[pid].key && Run(s, more).requests[pid].kind == s.requests[pid].kind
  {
    if more != [] {
      RequestsKeepTarget(s, more[..|more| - 1], pid);
      StepKeepsTarget(Run(s, more[..|more| - 1]), more[|more| - 1], pid);
    }
  }

  lemma StepKeepsTarget(s: State, step: Step, pid: Pid)
    requires pid in s.requests
    ensures pid in Apply(s, step).requests
    ensures Apply(s, step).requests[pid].key == s.requests[pid].key && Apply(s, step).requests[pid].kind == s.requests[pid].kind
  {
  }

  /**
   It slips past exactly then: the key was live when the update listed it, and the update lands on a
   revoked row if and only if one of the steps between list and update is a statement that revokes it.
   */
  lemma {:induction false} UpdateLandsOnRevokedIff(s: State, pid: Pid, between: seq<Step>, id: KeyId, replyLost: bool)
    requires Inv(s) && pid in s.requests && s.requests[pid].pc == Start
    requires s.requests[pid].kind.SetWorkflows? || s.requests[pid].kind.SetAllowPush?
    requires Apply(s, Act(pid, List(false))).requests[pid].pc == Listed
    requires var m := Run(Apply(s, Act(pid, List(false))), between);
             pid in m.requests && m.requests[pid].pc == Listed
    ensures var k, listed := s.requests[pid].key, Apply(s, Act(pid, List(false)));
            var s' := Apply(Run(listed, between), Act(pid, Write(id, false, replyLost)));
            && k in s.rows && !s.rows[k].revoked
            && k in Run(listed, between).rows && k in s'.rows
            && (var live, kind := Run(listed, between).rows[k], s.requests[pid].kind;
                s'.rows[k] == if kind.SetAllowPush?
                              then Key(live.project, live.attributes, live.workflows, kind.allowPush, live.revoked)
                              else Key(live.project, live.attributes, kind.workflows, live.allowPush, live.revoked))
            && (s'.rows[k].revoked <==>
                  exists i :: 0 <= i < |between| && Revokes(Run(listed, between[..i]), between[i], k))
  {
    var listed, k := Apply(s, Act(pid, List(false))), s.requests[pid].key;
    StepKeepsInv(s, Act(pid, List(false)));
    RequestsKeepTarget(listed, between, pid);
    RevokedDuring(listed, between, k);
    UpdateStores(Run(listed, between), pid, id, replyLost);
  }

  // ---- What a rotation copies ----

  /** In s, this step is the statement of an update of k's push right, or of its workflow list. */
  predicate SetsPush(s: State, step: Step, k: KeyId) {
    Updates(s, step, k) && s.requests[step.pid].kind.SetAllowPush?
  }

  predicate SetsWorkflows(s: State, step: Step, k: KeyId) {
    Updates(s, step, k) && s.requests[step.pid].kind.SetWorkflows?
  }

  /** The push right asked for by the last committed update of it, or the one k had to begin with. */
  function LastPush(s: State, more: seq<Step>, k: KeyId): bool
    requires k in s.rows
  {
    if more == [] then s.rows[k].allowPush
    else
      var before, last := Run(s, more[..|more| - 1]), more[|more| - 1];
      if SetsPush(before, last, k) then before.requests[last.pid].kind.allowPush else LastPush(s, more[..|more| - 1], k)
  }

  function LastWorkflows(s: State, more: seq<Step>, k: KeyId): seq<string>
    requires k in s.rows
  {
    if more == [] then s.rows[k].workflows
    else
      var before, last := Run(s, more[..|more| - 1]), more[|more| - 1];
      if SetsWorkflows(before, last, k) then before.requests[last.pid].kind.workflows
      else LastWorkflows(s, more[..|more| - 1], k)
  }

  lemma ColumnsStep(s: State, step: Step, k: KeyId)
    requires k in s.rows
    ensures var s' := Apply(s, step);
            && k in s'.rows && s'.rows[k].project == s.rows[k].project && s'.rows[k].attributes == s.rows[k].attributes
            && s'.rows[k].allowPush == (if SetsPush(s, step, k) then s.requests[step.pid].kind.allowPush else s.rows[k].allowPush)
            && s'.rows[k].workflows ==
                 if SetsWorkflows(s, step, k) then s.requests[step.pid].kind.workflows else s.rows[k].workflows
  {
  }

  /** Over any run both columns hold what their last committed update asked for, and the others never change. */
  lemma {:induction false} RowDuring(s: State, more: seq<Step>, k: KeyId)
    requires k in s.rows
    ensures var s' := Run(s, more);
            && k in s'.rows && s'.rows[k].project == s.rows[k].project && s'.rows[k].attributes == s.rows[k].attributes
            && s'.rows[k].allowPush == LastPush(s, more, k) && s'.rows[k].workflows == LastWorkflows(s, more, k)
  {
    if more != [] {
      RowDuring(s, more[..|more| - 1], k);
      ColumnsStep(Run(s, more[..|more| - 1]), more[|more| - 1], k);
    }
  }

  /** A request that has listed and not yet written is as it was. */
  lemma {:induction false} ListedStays(s: State, more: seq<Step>, pid: Pid)
    requires pid in s.requests && s.requests[pid].pc != Start
    ensures var m := Run(s, more);
            && pid in m.requests && m.requests[pid].pc != Start
            && (m.requests[pid].pc == Listed ==> m.requests[pid] == s.requests[pid])
  {
    if more != [] {
      ListedStays(s, more[..|more| - 1], pid);
      StepKeepsListed(Run(s, more[..|more| - 1]), more[|more| - 1], pid);
    }
  }

  lemma StepKeepsListed(s: State, step: Step, pid: Pid)
    requires pid in s.requests && s.requests[pid].pc != Start
    ensures var s' := Apply(s, step);
            && pid in s'.requests && s'.requests[pid].pc != Start
            && (s'.requests[pid].pc == Listed ==> s'.requests[pid] == s.requests[pid])
  {
  }

  /**
   The rotate handler too looks at the listed row only. It mints a live copy of the key as listed; the
   key it copies is by then revoked if and only if a step in between revoked it, and the copy misses
   nothing but what updates in between changed.
   */
  lemma {:induction false} RotationCopiesListed(s: State, pid: Pid, between: seq<Step>, id: KeyId, replyLost: bool)
    requires Inv(s) && pid in s.requests && s.requests[pid].pc == Start && s.requests[pid].kind == Rotate
    requires Apply(s, Act(pid, List(false))).requests[pid].pc == Listed
    requires var m := Run(Apply(s, Act(pid, List(false))), between);
             pid in m.requests && m.requests[pid].pc == Listed && id !in m.rows
    ensures var k, listed := s.requests[pid].key, Apply(s, Act(pid, List(false)));
            var s' := Apply(Run(listed, between), Act(pid, Write(id, false, replyLost)));
            && k in s.rows && k in listed.rows && !s.rows[k].revoked && k in s'.rows && id in s'.rows
            && s'.rows[id] == s.rows[k]
            && (s'.rows[k].revoked <==>
                  exists i :: 0 <= i < |between| && Revokes(Run(listed, between[..i]), between[i], k))
            && (Inherits(s'.rows[id], s'.rows[k]) <==>
                  LastPush(listed, between, k) == s.rows[k].allowPush && LastWorkflows(listed, between, k) == s.rows[k].workflows)
  {
    var listed, k := Apply(s, Act(pid, List(false))), s.requests[pid].key;
    StepKeepsInv(s, Act(pid, List(false)));
    ListedStays(listed, between, pid);
    RevokedDuring(listed, between, k);
    RowDuring(listed, between, k);
    RotationWrites(Run(listed, between), pid, id, replyLost);
  }

  lemma RotationWrites(m: State, pid: Pid, id: KeyId, replyLost: bool)
    requires pid in m.requests && m.requests[pid].pc == Listed && m.requests[pid].kind == Rotate && id !in m.rows
    ensures Apply(m, Act(pid, Write(id, false, replyLost))).rows == m.rows[id := RotatedCopy(m.requests[pid].prior)]
  {
  }

  /** A key of project 1 that rotation 1 has listed while it was live and could not push. */
  lemma StaleRotationReachable() returns (steps: seq<Step>)
    ensures var s := Run(INITIAL, steps);
            && s.rows == map[5 := Key(1, 0, [], false, false)]
            && s.requests.Keys == {0, 1}
            && s.requests[1] == Request(Rotate, 1, 5, Listed, Key(1, 0, [], false, false), 0)
  {
    RunExtends([], Submit(0, Create(0), 1, 0));
    steps := [] + [Submit(0, Create(0), 1, 0)];
    RunExtends(steps, Act(0, List(false)));
    steps := steps + [Act(0, List(false))];
    RunExtends(steps, Act(0, Write(5, false, false)));
    steps := steps + [Act(0, Write(5, false, false))];
    RunExtends(steps, Submit(1, Rotate, 1, 5));
    steps := steps + [Submit(1, Rotate, 1, 5)];
    RunExtends(steps, Act(1, List(false)));
    steps := steps + [Act(1, List(false))];
  }

  /** One more request of project 1 for key 5 lists it and writes, while rotation 1 waits. */
  lemma InBetween(steps: seq<Step>, pid: Pid, kind: Kind) returns (more: seq<Step>)
    requires var s := Run(INITIAL, steps);
             && pid !in s.requests && 1 in s.requests && pid != 1 && (kind == Revoke || kind.SetAllowPush?)
             && s.rows.Keys == {5} && s.rows[5].project == 1 && !s.rows[5].revoked
    ensures var s, s' := Run(INITIAL, steps), Run(INITIAL, more);
            && s'.rows == s.rows[5 := if kind == Revoke then s.rows[5].(revoked := true) else s.rows[5].(allowPush := kind.allowPush)]
            && s'.requests.Keys == s.requests.Keys + {pid} && s'.requests[1] == s.requests[1]
  {
    RunExtends(steps, Submit(pid, kind, 1, 5));
    more := steps + [Submit(pid, kind, 1, 5)];
    RunExtends(more, Act(pid, List(false)));
    more := more + [Act(pid, List(false))];
    RunExtends(more, Act(pid, Write(0, false, false)));
    more := more + [Act(pid, Write(0, false, false))];
  }

  /** A run in which a key is given the right to push and then revoked, and the rotation still mints a live copy without that right. */
  lemma RotationCopiesRevoked() returns (steps: seq<Step>)
    ensures Run(INITIAL, steps).rows == map[5 := Key(1, 0, [], true, true), 6 := Key(1, 0, [], false, false)]
  {
    steps := StaleRotationReachable();
    steps := InBetween(steps, 2, SetAllowPush(true));
    steps := InBetween(steps, 3, Revoke);
    RunExtends(steps, Act(1, Write(6, false, false)));
    RotationWrites(Run(INITIAL, steps), 1, 6, false);
    steps := steps + [Act(1, Write(6, false, false))];
  }
}
