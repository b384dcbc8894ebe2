/** The five table checks of the doctor, their repairs, and what a repairing pass leaves behind. */
module DoctorRepairs {
  import opened Options
  import Lifecycle = TaskLifecycle

  const LIMIT: nat := 100
  const HOUR: int := 3600

  // ---- Tables ----
  // `other` stands for the columns no check reads and no repair writes.

  datatype Task = Task(status: Lifecycle.Status, leaseId: Option<string>, leasedAt: Option<int>,
                       leasedBy: Option<string>, leaseExpires: Option<int>, updatedAt: int, other: string)

  datatype ExecutionStatus = ExecPending | ExecRunning | ExecPaused | ExecCompleted | ExecFailed | ExecCancelled

  datatype Execution = Execution(status: ExecutionStatus, createdAt: int, error: Option<string>,
                                 updatedAt: int, other: string)

  /** The primary key of a watcher row. */
  datatype Watch = Watch(task: string, chat: int)

  /** A row of tool_audit_log or task_llm_usage. */
  datatype Record = Record(task: Option<string>, other: string)

  datatype Tables = Tables(tasks: map<string, Task>, watchers: map<Watch, int>,
                           executions: map<string, Execution>, audit: map<nat, Record>, usage: map<nat, Record>)

  // ---- Findings ----

  predicate Held(t: Task) {
    t.status == Lifecycle.Leased || t.status == Lifecycle.Running
  }

  predicate Stale(t: Task, now: int) {
    Held(t) && t.leaseExpires.Some? && t.leaseExpires.value < now
  }

  predicate Terminal(t: Task) {
    t.status == Lifecycle.Completed || t.status == Lifecycle.Failed || t.status == Lifecycle.Cancelled
  }

  predicate Leaked(t: Task) {
    Terminal(t) && t.leaseId.Some?
  }

  predicate Active(e: Execution) {
    e.status == ExecRunning || e.status == ExecPending
  }

  predicate Stuck(e: Execution, now: int) {
    Active(e) && e.createdAt < now - HOUR
  }

  predicate OfTerminalTask(tasks: map<string, Task>, w: Watch) {
    w.task in tasks && Terminal(tasks[w.task])
  }

  /** The reference names a task, and there is no such task. */
  predicate Dangling(tasks: map<string, Task>, ref: Option<string>) {
    ref.Some? && ref.value != "" && ref.value !in tasks
  }

  function StaleIds(d: Tables, now: int): set<string> {
    set id | id in d.tasks && Stale(d.tasks[id], now)
  }

  function Orphaned(d: Tables): set<Watch> {
    set w | w in d.watchers && OfTerminalTask(d.tasks, w)
  }

  function StuckIds(d: Tables, now: int): set<string> {
    set id | id in d.executions && Stuck(d.executions[id], now)
  }

  function LeakedIds(d: Tables): set<string> {
    set id | id in d.tasks && Leaked(d.tasks[id])
  }

  function DanglingRecords(tasks: map<string, Task>, table: map<nat, Record>): set<nat> {
    set k | k in table && Dangling(tasks, table[k].task)
  }

  function DanglingWatches(d: Tables): set<Watch> {
    set w | w in d.watchers && Dangling(d.tasks, Some(w.task))
  }

  function DanglingCount(d: Tables): nat {
    |DanglingRecords(d.tasks, d.audit)| + |DanglingRecords(d.tasks, d.usage)| + |DanglingWatches(d)|
  }

  datatype Findings = Findings(stale: set<string>, orphaned: set<Watch>, stuck: set<string>, leaked: set<string>,
                               audit: set<nat>, usage: set<nat>, watches: set<Watch>)

  /** Every row that some check would report if its query had no LIMIT. */
  function Find(d: Tables, now: int): Findings {
    Findings(StaleIds(d, now), Orphaned(d), StuckIds(d, now), LeakedIds(d),
             DanglingRecords(d.tasks, d.audit), DanglingRecords(d.tasks, d.usage), DanglingWatches(d))
  }

  /** Each finding spelled out in the columns of its rows. */
  lemma FindingsInColumns(d: Tables, now: int)
    ensures forall id :: id in Find(d, now).stale <==>
              id in d.tasks && (d.tasks[id].status == Lifecycle.Leased || d.tasks[id].status == Lifecycle.Running)
              && d.tasks[id].leaseExpires != None && d.tasks[id].leaseExpires.value < now
    ensures forall id :: id in Find(d, now).leaked <==>
              id in d.tasks && d.tasks[id].status in {Lifecycle.Completed, Lifecycle.Failed, Lifecycle.Cancelled}
              && d.tasks[id].leaseId != None
    ensures forall id :: id in Find(d, now).stuck <==>
              id in d.executions && d.executions[id].status in {ExecRunning, ExecPending}
              && d.executions[id].createdAt + 3600 < now
    ensures forall w :: w in Find(d, now).orphaned <==>
              w in d.watchers && w.task in d.tasks
              && d.tasks[w.task].status in {Lifecycle.Completed, Lifecycle.Failed, Lifecycle.Cancelled}
    ensures forall w :: w in Find(d, now).watches <==> w in d.watchers && w.task != "" && w.task !in d.tasks
    ensures forall k :: k in Find(d, now).audit <==>
              k in d.audit && exists t :: d.audit[k].task == Some(t) && t != "" && t !in d.tasks
    ensures forall k :: k in Find(d, now).usage <==>
              k in d.usage && exists t :: d.usage[k].task == Some(t) && t != "" && t !in d.tasks
  {
  }

  const CLEAN := Findings({}, {}, {}, {}, {}, {}, {})

  // ---- Repairs ----

  function Unleased(t: Task, now: int): Task {
    t.(leaseId := None, leasedAt := None, leasedBy := None, leaseExpires := None, updatedAt := now)
  }

  /** One UPDATE of checkStaleLeases for every id in ids. */
  function Release(d: Tables, ids: set<string>, now: int): Tables {
    d.(tasks := map id | id in d.tasks ::
         if id in ids && Held(d.tasks[id]) then Unleased(d.tasks[id], now).(status := Lifecycle.Queued)
         else d.tasks[id])
  }

  function Unwatch(d: Tables): Tables {
    d.(watchers := map w | w in d.watchers && !OfTerminalTask(d.tasks, w) :: d.watchers[w])
  }

  const MARKED_FAILED := "marked failed by vornikctl doctor"

  /** One UPDATE of checkStuckExecutions for every id in ids. */
  function Fail(d: Tables, ids: set<string>, now: int): Tables {
    d.(executions := map id | id in d.executions ::
         if id in ids && Active(d.executions[id])
         then d.executions[id].(status := ExecFailed, error := Some(MARKED_FAILED), updatedAt := now)
         else d.executions[id])
  }

  function Unleak(d: Tables, now: int): Tables {
    d.(tasks := map id | id in d.tasks ::
         if Leaked(d.tasks[id]) then Unleased(d.tasks[id], now) else d.tasks[id])
  }

  function Undangle(tasks: map<string, Task>, table: map<nat, Record>): map<nat, Record> {
    map k | k in table && !Dangling(tasks, table[k].task) :: table[k]
  }

  function Sweep(d: Tables): Tables {
    d.(audit := Undangle(d.tasks, d.audit), usage := Undangle(d.tasks, d.usage),
       watchers := map w | w in d.watchers && !Dangling(d.tasks, Some(w.task)) :: d.watchers[w])
  }

  /** The five repairs in the order of the report; leases and execs are the rows the two limited queries returned. */
  function Pass(d: Tables, leases: set<string>, execs: set<string>, now: int): Tables {
    Sweep(Unleak(Fail(Unwatch(Release(d, leases, now)), execs, now), now))
  }

  // ---- No repair creates another check's finding ----

  lemma ReleaseFinds(d: Tables, ids: set<string>, now: int)
    ensures Find(Release(d, ids, now), now) == Find(d, now).(stale := StaleIds(d, now) - ids)
  {
  }

  lemma UnwatchFinds(d: Tables, now: int)
    ensures Find(Unwatch(d), now) == Find(d, now).(orphaned := {})
  {
  }

  lemma FailFinds(d: Tables, ids: set<string>, now: int)
    ensures Find(Fail(d, ids, now), now) == Find(d, now).(stuck := StuckIds(d, now) - ids)
  {
  }

  lemma UnleakFinds(d: Tables, now: int)
    ensures Find(Unleak(d, now), now) == Find(d, now).(leaked := {})
  {
  }

  lemma SweepFinds(d: Tables, now: int)
    ensures Find(Sweep(d), now) == Find(d, now).(audit := {}, usage := {}, watches := {})
  {
  }

  /** A pass clears every finding but the leases and executions its queries did not return. */
  lemma PassFinds(d: Tables, leases: set<string>, execs: set<string>, now: int)
    ensures Find(Pass(d, leases, execs, now), now)
         == CLEAN.(stale := StaleIds(d, now) - leases, stuck := StuckIds(d, now) - execs)
  {
  }

  /** Each check of a repairing pass meets the findings that were there before the pass. */
  lemma StagesFind(d: Tables, leases: set<string>, execs: set<string>, now: int)
    ensures var d1 := Release(d, leases, now);
            var d2 := Unwatch(d1);
            var d3 := Fail(d2, execs, now);
            var d4 := Unleak(d3, now);
            && Orphaned(d1) == Orphaned(d) && StuckIds(d2, now) == StuckIds(d, now) && d2.executions == d.executions
            && LeakedIds(d3) == LeakedIds(d) && DanglingCount(d4) == DanglingCount(d)
  {
    var d1 := Release(d, leases, now);
    var d2 := Unwatch(d1);
    var d3 := Fail(d2, execs, now);
    ReleaseFinds(d, leases, now);
    UnwatchFinds(d1, now);
    FailFinds(d2, execs, now);
    UnleakFinds(d3, now);
  }

  // ---- Whole passes ----

  /** As many rows as the query's LIMIT allows. */
  predicate FullPage<T>(page: set<T>, all: set<T>) {
    page <= all && |page| == if |all| > LIMIT then LIMIT else |all|
  }

  ghost predicate IsPass(d: Tables, after: Tables, now: int) {
    exists leases, execs ::
      FullPage(leases, StaleIds(d, now)) && FullPage(execs, StuckIds(d, now)) && after == Pass(d, leases, execs, now)
  }

  /** What n findings come to after k pages of LIMIT. */
  function Left(n: nat, k: nat): nat {
    if n > k * LIMIT then n - k * LIMIT else 0
  }

  lemma PageLeaves<T>(page: set<T>, all: set<T>)
    requires FullPage(page, all)
    ensures |all - page| == Left(|all|, 1)
  {
  }

  lemma PassLeaves(d: Tables, after: Tables, now: int)
    requires IsPass(d, after, now)
    ensures var f := Find(after, now);
            && f == CLEAN.(stale := f.stale, stuck := f.stuck)
            && |f.stale| == Left(|StaleIds(d, now)|, 1) && f.stale <= StaleIds(d, now)
            && |f.stuck| == Left(|StuckIds(d, now)|, 1) && f.stuck <= StuckIds(d, now)
  {
    var leases, execs :| FullPage(leases, StaleIds(d, now)) && FullPage(execs, StuckIds(d, now))
                         && after == Pass(d, leases, execs, now);
    PassFinds(d, leases, execs, now);
    PageLeaves(leases, StaleIds(d, now));
    PageLeaves(execs, StuckIds(d, now));
  }

  /** The pass after a repairing pass finds nothing if and only if neither limited query overflowed. */
  lemma SecondPassCleanIff(d: Tables, after: Tables, now: int)
    requires IsPass(d, after, now)
    ensures Find(after, now) == CLEAN <==> |StaleIds(d, now)| <= 100 && |StuckIds(d, now)| <= 100
  {
    PassLeaves(d, after, now);
  }

  ghost predicate Passes(run: seq<Tables>, now: int) {
    |run| > 0 && forall i :: 0 < i < |run| ==> IsPass(run[i - 1], run[i], now)
  }

  /** After k repairing passes exactly max(0, n - 100 k) of n stale leases, or stuck executions, are left. */
  lemma {:induction false} RemainingAfterPasses(run: seq<Tables>, now: int, k: nat)
    requires Passes(run, now) && k < |run|
    ensures |StaleIds(run[k], now)| == Left(|StaleIds(run[0], now)|, k)
    ensures |StuckIds(run[k], now)| == Left(|StuckIds(run[0], now)|, k)
    ensures k > 0 ==> (Find(run[k], now) == CLEAN <==>
                       |StaleIds(run[0], now)| <= k * LIMIT && |StuckIds(run[0], now)| <= k * LIMIT)
  {
    if k > 0 {
      RemainingAfterPasses(run, now, k - 1);
      PassLeaves(run[k - 1], run[k], now);
    }
  }

  lemma NothingToRelease(d: Tables, now: int)
    ensures Release(d, {}, now) == d && Fail(d, {}, now) == d
    ensures LeakedIds(d) == {} ==> Unleak(d, now) == d
    ensures Orphaned(d) == {} ==> Unwatch(d) == d
  {
  }

  lemma NothingToSweep(tasks: map<string, Task>, table: map<nat, Record>)
    ensures DanglingRecords(tasks, table) == {} ==> Undangle(tasks, table) == table
  {
    assert forall k :: k in table && Dangling(tasks, table[k].task) ==> k in DanglingRecords(tasks, table);
  }

  lemma NoWatchToSweep(d: Tables)
    ensures DanglingWatches(d) == {} ==> Sweep(d).watchers == d.watchers
  {
    assert forall w :: w in d.watchers && Dangling(d.tasks, Some(w.task)) ==> w in DanglingWatches(d);
  }

  /** On clean tables a repairing pass writes nothing. */
  lemma CleanPassWritesNothing(d: Tables, after: Tables, now: int)
    requires IsPass(d, after, now) && Find(d, now) == CLEAN
    ensures after == d
  {
    var leases, execs :| FullPage(leases, StaleIds(d, now)) && FullPage(execs, StuckIds(d, now))
                         && after == Pass(d, leases, execs, now);
    assert leases == {} && execs == {};
    NothingToRelease(d, now);
    NothingToSweep(d.tasks, d.audit);
    NothingToSweep(d.tasks, d.usage);
    NoWatchToSweep(d);
  }

  // ---- What a pass does to each row ----

  /** Releasing touches the named tasks that are LEASED or RUNNING: they are QUEUED, their lease is gone, all else stays. */
  lemma ReleasedRow(d: Tables, ids: set<string>, now: int, id: string)
    requires id in d.tasks
    ensures var t := d.tasks[id];
            && id in Release(d, ids, now).tasks
            && Release(d, ids, now).tasks[id] ==
               if id in ids && t.status in {Lifecycle.Leased, Lifecycle.Running}
               then Task(Lifecycle.Queued, None, None, None, None, now, t.other) else t
  {
  }

  /** Cleaning touches the finished tasks with a lease id: their lease is gone, their status and all else stays. */
  lemma CleanedRow(d: Tables, now: int, id: string)
    requires id in d.tasks
    ensures var t := d.tasks[id];
            && id in Unleak(d, now).tasks
            && Unleak(d, now).tasks[id] ==
               if t.status in {Lifecycle.Completed, Lifecycle.Failed, Lifecycle.Cancelled} && t.leaseId.Some?
               then Task(t.status, None, None, None, None, now, t.other) else t
  {
  }

  /**
   Tasks: none comes or goes. A released task is QUEUED, a leaked one keeps its status; both lose their
   four lease columns and keep what no repair writes. Every other task is as it was.
   */
  lemma TaskRowAfter(d: Tables, leases: set<string>, execs: set<string>, now: int, id: string)
    requires leases <= StaleIds(d, now)
    ensures var tasks := Pass(d, leases, execs, now).tasks;
            && (id in tasks <==> id in d.tasks)
            && (id in leases ==>
                  id in tasks && tasks[id] == Task(Lifecycle.Queued, None, None, None, None, now, d.tasks[id].other))
            && (id in LeakedIds(d) ==>
                  id in tasks && tasks[id] == Task(d.tasks[id].status, None, None, None, None, now, d.tasks[id].other))
            && (id in d.tasks && id !in leases && id !in LeakedIds(d) ==> tasks[id] == d.tasks[id])
  {
    assert id in leases ==> id in d.tasks && Stale(d.tasks[id], now);
  }

  /** Executions: none comes or goes. A listed stuck one is FAILED with the doctor's message; every other is as it was. */
  lemma ExecutionRowAfter(d: Tables, leases: set<string>, execs: set<string>, now: int, id: string)
    requires execs <= StuckIds(d, now)
    ensures var executions := Pass(d, leases, execs, now).executions;
            && (id in executions <==> id in d.executions)
            && (id in execs ==>
                  id in executions
                  && executions[id] == Execution(ExecFailed, d.executions[id].createdAt,
                                                 Some("marked failed by vornikctl doctor"), now, d.executions[id].other))
            && (id in d.executions && id !in execs ==> executions[id] == d.executions[id])
  {
  }

  lemma RecordsAfter(d: Tables, leases: set<string>, execs: set<string>, now: int)
    ensures var r := Pass(d, leases, execs, now);
            r.audit == Undangle(d.tasks, d.audit) && r.usage == Undangle(d.tasks, d.usage)
  {
  }

  lemma UnwatchIgnoresRelease(d: Tables, leases: set<string>, now: int)
    ensures Unwatch(Release(d, leases, now)).watchers == Unwatch(d).watchers
  {
  }

  lemma SweepByKeys(d: Tables, d': Tables)
    requires d.tasks.Keys == d'.tasks.Keys && d.watchers == d'.watchers
    ensures Sweep(d).watchers == Sweep(d').watchers
  {
  }

  lemma WatchersAfter(d: Tables, leases: set<string>, execs: set<string>, now: int)
    ensures var r := Pass(d, leases, execs, now);
            && r.watchers.Keys == d.watchers.Keys - Orphaned(d) - DanglingWatches(d)
            && (forall w :: w in r.watchers ==> r.watchers[w] == d.watchers[w])
  {
    UnwatchIgnoresRelease(d, leases, now);
    SweepByKeys(Unleak(Fail(Unwatch(Release(d, leases, now)), execs, now), now), Unwatch(d));
  }

  lemma UndangleKeeps(tasks: map<string, Task>, table: map<nat, Record>)
    ensures var r := Undangle(tasks, table);
            r.Keys == table.Keys - DanglingRecords(tasks, table) && forall k :: k in r ==> r[k] == table[k]
  {
  }

  /** Watchers, audit and usage rows: a row survives, unchanged, exactly when it is in no finding. */
  lemma OtherRowsAfter(d: Tables, leases: set<string>, execs: set<string>, now: int)
    ensures var r := Pass(d, leases, execs, now);
            && r.watchers.Keys == d.watchers.Keys - Orphaned(d) - DanglingWatches(d)
            && (forall w :: w in r.watchers ==> r.watchers[w] == d.watchers[w])
            && r.audit.Keys == d.audit.Keys - DanglingRecords(d.tasks, d.audit)
            && (forall k :: k in r.audit ==> r.audit[k] == d.audit[k])
            && r.usage.Keys == d.usage.Keys - DanglingRecords(d.tasks, d.usage)
            && (forall k :: k in r.usage ==> r.usage[k] == d.usage[k])
  {
    WatchersAfter(d, leases, execs, now);
    RecordsAfter(d, leases, execs, now);
    UndangleKeeps(d.tasks, d.audit);
    UndangleKeeps(d.tasks, d.usage);
  }

  /** Usage that belongs to no task by design is never removed. */
  lemma TasklessUsageKept(d: Tables, leases: set<string>, execs: set<string>, now: int, k: nat)
    requires k in d.usage && (d.usage[k].task == None || d.usage[k].task == Some(""))
    ensures var r := Pass(d, leases, execs, now);
            k in r.usage && r.usage[k] == d.usage[k]
  {
  }

  // ---- The queries with ORDER BY and LIMIT ----

  predicate Oldest(ids: seq<string>, at: map<string, int>) {
    && |ids| == (if |at| > LIMIT then LIMIT else |at|)
    && (forall i :: 0 <= i < |ids| ==> ids[i] in at)
    && (forall i, j :: 0 <= i < j < |ids| ==> ids[i] != ids[j] && at[ids[i]] <= at[ids[j]])
    && (forall i, id :: 0 <= i < |ids| && id in at && id !in ids ==> at[ids[i]] <= at[id])
  }

  lemma {:induction false} Earliest(at: map<string, int>, left: set<string>) returns (id: string)
    requires left != {} && left <= at.Keys
    ensures id in left && forall other :: other in left ==> at[id] <= at[other]
    decreases |left|
  {
    id :| id in left;
    if left != {id} {
      var best := Earliest(at, left - {id});
      if at[best] < at[id] {
        id := best;
      }
    }
  }

  /** Any rows the query may return: ties come in any order. */
  method OldestFirst(at: map<string, int>) returns (ids: seq<string>)
    ensures Oldest(ids, at)
    ensures |ids| <= 100 && forall i, j :: 0 <= i < j < |ids| ==> at[ids[i]] <= at[ids[j]]
    ensures forall id :: id in at && id !in ids ==> |ids| == 100
  {
    ids := [];
    var left := at.Keys;
    while |ids| < LIMIT && left != {}
      invariant |ids| <= LIMIT && |ids| + |left| == |at|
      invariant left <= at.Keys && forall id :: id in at ==> (id in left <==> id !in ids)
      invariant forall i :: 0 <= i < |ids| ==> ids[i] in at
      invariant forall i, j :: 0 <= i < j < |ids| ==> ids[i] != ids[j] && at[ids[i]] <= at[ids[j]]
      invariant forall i, id :: 0 <= i < |ids| && id in left ==> at[ids[i]] <= at[id]
      decreases |left|
    {
      ghost var earliest := Earliest(at, left);
      var id :| id in left && forall other :: other in left ==> at[id] <= at[other];
      ids := ids + [id];
      left := left - {id};
    }
  }

  // ---- The checks as they run ----

  datatype CheckStatus = OK | WARNING

  /** found is the number the message reports; rows lists what a limited query returned. */
  datatype Check = Check(status: CheckStatus, found: nat, fixed: nat, rows: seq<string>)

  datatype Report = Report(leases: Check, watchers: Check, executions: Check, audit: Check, orphans: Check)

  function Elements(ids: seq<string>): (r: set<string>)
    ensures forall id :: id in r <==> id in ids
  {
    set i | 0 <= i < |ids| :: ids[i]
  }

  lemma {:induction false} DistinctCount(ids: seq<string>)
    requires forall i, j :: 0 <= i < j < |ids| ==> ids[i] != ids[j]
    ensures |Elements(ids)| == |ids|
  {
    if |ids| > 0 {
      var n := |ids| - 1;
      DistinctCount(ids[..n]);
      assert Elements(ids) == Elements(ids[..n]) + {ids[n]};
    }
  }

  /** The rows a limited query returns are a full page of its finding. */
  lemma OldestIsFullPage(ids: seq<string>, at: map<string, int>)
    requires Oldest(ids, at)
    ensures FullPage(Elements(ids), at.Keys)
  {
    DistinctCount(ids);
  }

  function ExpiryOf(tasks: map<string, Task>, now: int): map<string, int> {
    map id | id in tasks && Stale(tasks[id], now) :: tasks[id].leaseExpires.value
  }

  function CreationOf(executions: map<string, Execution>, now: int): map<string, int> {
    map id | id in executions && Stuck(executions[id], now) :: executions[id].createdAt
  }

  lemma QueriesFind(d: Tables, now: int)
    ensures ExpiryOf(d.tasks, now).Keys == StaleIds(d, now)
    ensures CreationOf(d.executions, now).Keys == StuckIds(d, now)
  {
  }

  /** The run of a repairing doctor is a pass as defined above. */
  lemma RunIsPass(d: Tables, leases: seq<string>, execs: seq<string>, now: int)
    requires Oldest(leases, ExpiryOf(d.tasks, now)) && Oldest(execs, CreationOf(d.executions, now))
    ensures IsPass(d, Pass(d, Elements(leases), Elements(execs), now), now)
  {
    QueriesFind(d, now);
    OldestIsFullPage(leases, ExpiryOf(d.tasks, now));
    OldestIsFullPage(execs, CreationOf(d.executions, now));
  }

  function Updated(tasks: map<string, Task>, id: string, now: int): map<string, Task> {
    if id in tasks && Held(tasks[id])
    then tasks[id := Unleased(tasks[id], now).(status := Lifecycle.Queued)] else tasks
  }

  lemma ReleaseOne(d: Tables, ids: seq<string>, k: nat, now: int)
    requires k < |ids|
    ensures Release(d, Elements(ids[..k + 1]), now).tasks == Updated(Release(d, Elements(ids[..k]), now).tasks, ids[k], now)
  {
  }

  function Marked(executions: map<string, Execution>, id: string, now: int): map<string, Execution> {
    if id in executions && Active(executions[id])
    then executions[id := executions[id].(status := ExecFailed, error := Some(MARKED_FAILED), updatedAt := now)]
    else executions
  }

  lemma FailOne(d: Tables, ids: seq<string>, k: nat, now: int)
    requires k < |ids|
    ensures Fail(d, Elements(ids[..k + 1]), now).executions == Marked(Fail(d, Elements(ids[..k]), now).executions, ids[k], now)
  {
  }

  predicate AllOK(r: Report) {
    r.leases.status == OK && r.watchers.status == OK && r.executions.status == OK
    && r.audit.status == OK && r.orphans.status == OK
  }

  /** The counts of the report against the findings in the tables. */
  predicate Counts(r: Report, f: Findings) {
    && r.leases.found == (if |f.stale| > LIMIT then LIMIT else |f.stale|)
    && r.watchers.found == |f.orphaned|
    && r.executions.found == (if |f.stuck| > LIMIT then LIMIT else |f.stuck|)
    && r.audit.found == |f.leaked|
    && r.orphans.found == |f.audit| + |f.usage| + |f.watches|
  }

  // What each check promises, from the tables before and after it.

  predicate LeaseCheck(d: Tables, after: Tables, c: Check, now: int, fix: bool) {
    && Oldest(c.rows, ExpiryOf(d.tasks, now))
    && after == (if fix then Release(d, Elements(c.rows), now) else d)
    && c.found == |c.rows| && c.fixed == (if fix then c.found else 0)
    && (c.status == OK <==> fix || StaleIds(d, now) == {})
  }

  /** fixed counts the tasks whose watchers went, not the watchers. */
  predicate WatcherCheck(d: Tables, after: Tables, c: Check, fix: bool) {
    && after == (if fix then Unwatch(d) else d)
    && c.found == |Orphaned(d)| && c.fixed == (if fix then |set w | w in Orphaned(d) :: w.task| else 0)
    && (c.status == OK <==> fix || Orphaned(d) == {})
  }

  predicate ExecutionCheck(d: Tables, after: Tables, c: Check, now: int, fix: bool) {
    && Oldest(c.rows, CreationOf(d.executions, now))
    && after == (if fix then Fail(d, Elements(c.rows), now) else d)
    && c.found == |c.rows| && c.fixed == (if fix then c.found else 0)
    && (c.status == OK <==> fix || StuckIds(d, now) == {})
  }

  predicate AuditCheck(d: Tables, after: Tables, c: Check, now: int, fix: bool) {
    && after == (if fix then Unleak(d, now) else d)
    && c.found == |LeakedIds(d)| && c.fixed == (if fix then c.found else 0)
    && (c.status == OK <==> fix || LeakedIds(d) == {})
  }

  predicate OrphanCheck(d: Tables, after: Tables, c: Check, fix: bool) {
    && after == (if fix then Sweep(d) else d)
    && c.found == DanglingCount(d) && c.fixed == (if fix then c.found else 0)
    && (c.status == OK <==> fix || c.found == 0)
  }

  /** What the whole run promises. */
  predicate RunOutcome(d: Tables, after: Tables, r: Report, now: int, fix: bool) {
    && Oldest(r.leases.rows, ExpiryOf(d.tasks, now)) && Oldest(r.executions.rows, CreationOf(d.executions, now))
    && after == (if fix then Pass(d, Elements(r.leases.rows), Elements(r.executions.rows), now) else d)
    && Counts(r, Find(d, now))
    && (AllOK(r) <==> fix || Find(d, now) == CLEAN)
  }

  lemma ChecksCompose(d: Tables, d1: Tables, d2: Tables, d3: Tables, d4: Tables, d5: Tables,
                      r: Report, now: int, fix: bool)
    requires LeaseCheck(d, d1, r.leases, now, fix) && WatcherCheck(d1, d2, r.watchers, fix)
    requires ExecutionCheck(d2, d3, r.executions, now, fix) && AuditCheck(d3, d4, r.audit, now, fix)
    requires OrphanCheck(d4, d5, r.orphans, fix)
    ensures RunOutcome(d, d5, r, now, fix)
  {
    StagesFind(d, Elements(r.leases.rows), Elements(r.executions.rows), now);
    QueriesFind(d, now);
  }

  predicate NothingFound(r: Report) {
    r.leases.found == 0 && r.watchers.found == 0 && r.executions.found == 0 && r.audit.found == 0 && r.orphans.found == 0
  }

  lemma NothingFoundIff(r: Report, f: Findings)
    requires Counts(r, f)
    ensures NothingFound(r) <==> f == CLEAN
  {
  }

  /**
   A repairing run calls every check OK, whatever it left. The run after it, at the same time and
   with no writer in between, finds nothing if and only if at most 100 leases were stale and at
   most 100 executions stuck, and then writes nothing.
   */
  lemma SecondRun(d: Tables, d1: Tables, d2: Tables, r1: Report, r2: Report, now: int, fix: bool)
    requires RunOutcome(d, d1, r1, now, true) && RunOutcome(d1, d2, r2, now, fix)
    ensures AllOK(r1)
    ensures NothingFound(r2) <==> |StaleIds(d, now)| <= 100 && |StuckIds(d, now)| <= 100
    ensures NothingFound(r2) ==> d2 == d1
  {
    RunIsPass(d, r1.leases.rows, r1.executions.rows, now);
    SecondPassCleanIff(d, d1, now);
    NothingFoundIff(r2, Find(d1, now));
    RunIsPass(d1, r2.leases.rows, r2.executions.rows, now);
    if fix && NothingFound(r2) {
      CleanPassWritesNothing(d1, d2, now);
    }
  }

  function TaskName(n: nat): string {
    seq(n + 1, i => 't')
  }

  /** n tasks that are leased until time 0, with n different names. */
  function StaleTasks(n: nat): map<string, Task> {
    if n == 0 then map[]
    else StaleTasks(n - 1)[TaskName(n - 1) := Task(Lifecycle.Leased, None, None, None, Some(0), 0, "")]
  }

  lemma {:induction false} StaleTasksCount(n: nat)
    ensures |StaleTasks(n)| == n
    ensures forall id :: id in StaleTasks(n) ==> |id| <= n && Stale(StaleTasks(n)[id], 1)
  {
    if n > 0 {
      StaleTasksCount(n - 1);
      assert |TaskName(n - 1)| == n;
      assert StaleTasks(n).Keys == StaleTasks(n - 1).Keys + {TaskName(n - 1)};
    }
  }

  lemma {:induction false} StaleTasksFound(n: nat, d: Tables)
    requires d.tasks == StaleTasks(n)
    ensures |StaleIds(d, 1)| == n
  {
    StaleTasksCount(n);
    assert StaleIds(d, 1) == StaleTasks(n).Keys;
  }

  /** With n stale leases, n > 100, a repairing run calls every check OK and leaves n - 100 of them stale. */
  lemma {:induction false} OkWithLeasesLeft(n: nat, d: Tables, d1: Tables, r: Report)
    requires n > LIMIT && d.tasks == StaleTasks(n) && RunOutcome(d, d1, r, 1, true)
    ensures AllOK(r) && |StaleIds(d1, 1)| == n - LIMIT
  {
    StaleTasksFound(n, d);
    RunIsPass(d, r.leases.rows, r.executions.rows, 1);
    PassLeaves(d, d1, 1);
  }

  class Database {
    var tasks: map<string, Task>
    var watchers: map<Watch, int>
    var executions: map<string, Execution>
    var audit: map<nat, Record>
    var usage: map<nat, Record>

    function Contents(): Tables
      reads this
    {
      Tables(tasks, watchers, executions, audit, usage)
    }

    method CheckStaleLeases(now: int, fix: bool) returns (check: Check)
      modifies this`tasks
      ensures LeaseCheck(old(Contents()), Contents(), check, now, fix)
    {
      ghost var d := Contents();
      var stale := OldestFirst(ExpiryOf(tasks, now));
      QueriesFind(d, now);
      check := Check(if |stale| == 0 then OK else WARNING, |stale|, 0, stale);
      if fix {
        var fixed := UpdateTasks(stale, now);
        check := check.(fixed := fixed);
        if check.fixed == |stale| {
          check := check.(status := OK);
        }
      }
    }

    /** One UPDATE per stale task, each rechecking the status alone. */
    method UpdateTasks(ids: seq<string>, now: int) returns (fixed: nat)
      modifies this`tasks
      ensures tasks == Release(old(Contents()), Elements(ids), now).tasks && fixed == |ids|
    {
      ghost var d := Contents();
      fixed := 0;
      assert Release(d, Elements(ids[..0]), now).tasks == tasks;
      for k := 0 to |ids|
        invariant tasks == Release(d, Elements(ids[..k]), now).tasks && fixed == k
      {
        ReleaseOne(d, ids, k, now);
        tasks := Updated(tasks, ids[k], now);
        fixed := fixed + 1;
      }
      assert ids[..|ids|] == ids;
    }

    method CheckOrphanedWatchers(fix: bool) returns (check: Check)
      modifies this`watchers
      ensures WatcherCheck(old(Contents()), Contents(), check, fix)
    {
      ghost var d := Contents();
      var orphans := Orphaned(Contents());
      check := Check(if orphans == {} then OK else WARNING, |orphans|, 0, []);
      if fix && orphans != {} {
        var taskIds := set w | w in orphans :: w.task;
        assert exists w :: w in orphans && w.task in taskIds;
        var fixed := DeleteWatchers(taskIds);
        check := check.(fixed := fixed);
        if check.fixed > 0 {
          check := check.(status := OK);
        }
        OrphanedTasks(d, taskIds);
      } else {
        NothingToRelease(d, 0);
      }
    }

    /** One DELETE per task id, in any order; the count is of ids. */
    method DeleteWatchers(taskIds: set<string>) returns (fixed: nat)
      modifies this`watchers
      ensures watchers == map w | w in old(watchers) && w.task !in taskIds :: old(watchers)[w]
      ensures fixed == |taskIds|
    {
      var left := taskIds;
      fixed := 0;
      while left != {}
        invariant left <= taskIds && fixed + |left| == |taskIds|
        invariant watchers == map w | w in old(watchers) && w.task !in taskIds - left :: old(watchers)[w]
        decreases |left|
      {
        var taskId :| taskId in left;
        watchers := map w | w in watchers && w.task != taskId :: watchers[w];
        left := left - {taskId};
        fixed := fixed + 1;
      }
    }

    method CheckStuckExecutions(now: int, fix: bool) returns (check: Check)
      modifies this`executions
      ensures ExecutionCheck(old(Contents()), Contents(), check, now, fix)
    {
      ghost var d := Contents();
      var stuck := OldestFirst(CreationOf(executions, now));
      QueriesFind(d, now);
      check := Check(if |stuck| == 0 then OK else WARNING, |stuck|, 0, stuck);
      if fix {
        var fixed := UpdateExecutions(stuck, now);
        check := check.(fixed := fixed);
        if check.fixed > 0 {
          check := check.(status := OK);
        }
      }
    }

    /** One UPDATE per stuck execution, each rechecking the status alone. */
    method UpdateExecutions(ids: seq<string>, now: int) returns (fixed: nat)
      modifies this`executions
      ensures executions == Fail(old(Contents()), Elements(ids), now).executions && fixed == |ids|
    {
      ghost var d := Contents();
      fixed := 0;
      assert Fail(d, Elements(ids[..0]), now).executions == executions;
      for k := 0 to |ids|
        invariant executions == Fail(d, Elements(ids[..k]), now).executions && fixed == k
      {
        FailOne(d, ids, k, now);
        executions := Marked(executions, ids[k], now);
        fixed := fixed + 1;
      }
      assert ids[..|ids|] == ids;
    }

    method CheckTaskStateAudit(now: int, fix: bool) returns (check: Check)
      modifies this`tasks
      ensures AuditCheck(old(Contents()), Contents(), check, now, fix)
    {
      var leaked := |LeakedIds(Contents())|;
      check := Check(if leaked == 0 then OK else WARNING, leaked, 0, []);
      if fix && leaked != 0 {
        tasks := Unleak(Contents(), now).tasks;
        check := check.(fixed := leaked, status := OK);
      } else {
        NothingToRelease(Contents(), now);
      }
    }

    method CheckOrphanFKRows(fix: bool) returns (check: Check)
      modifies this`audit, this`usage, this`watchers
      ensures OrphanCheck(old(Contents()), Contents(), check, fix)
    {
      var n := |DanglingRecords(tasks, audit)|;
      var total, fixed := n, 0;
      NothingToSweep(tasks, audit);
      if n != 0 && fix {
        audit := Undangle(tasks, audit);
        fixed := fixed + n;
      }
      n := |DanglingRecords(tasks, usage)|;
      total := total + n;
      NothingToSweep(tasks, usage);
      if n != 0 && fix {
        usage := Undangle(tasks, usage);
        fixed := fixed + n;
      }
      n := |DanglingWatches(Contents())|;
      total := total + n;
      NoWatchToSweep(Contents());
      if n != 0 && fix {
        watchers := Sweep(Contents()).watchers;
        fixed := fixed + n;
      }
      check := Check(if total == 0 || (fix && fixed == total) then OK else WARNING, total, fixed, []);
    }

    /**
     The table checks of one doctor run. With or without fix, each check reports what it would
     report on the tables as the run found them, because no repair touches another check's findings.
     */
    method RunTableChecks(now: int, fix: bool) returns (r: Report)
      modifies this
      ensures RunOutcome(old(Contents()), Contents(), r, now, fix)
    {
      ghost var d := Contents();
      var leases := CheckStaleLeases(now, fix);
      ghost var d1 := Contents();
      var watched := CheckOrphanedWatchers(fix);
      ghost var d2 := Contents();
      var stuck := CheckStuckExecutions(now, fix);
      ghost var d3 := Contents();
      var leaked := CheckTaskStateAudit(now, fix);
      ghost var d4 := Contents();
      var dangling := CheckOrphanFKRows(fix);
      r := Report(leases, watched, stuck, leaked, dangling);
      ChecksCompose(d, d1, d2, d3, d4, Contents(), r, now, fix);
    }
  }

  /** Deleting by the task ids of the orphans deletes the orphans. */
  lemma OrphanedTasks(d: Tables, taskIds: set<string>)
    requires taskIds == set w | w in Orphaned(d) :: w.task
    ensures (map w | w in d.watchers && w.task !in taskIds :: d.watchers[w]) == Unwatch(d).watchers
  {
  }
}
