/** The server's tables and what each storage transaction does to them.
  *
  * The functions here are the meaning of the methods in module Storage; every property of
  * whole histories is proved about them. A transaction that fails leaves the tables alone.
  */
module Ledger {
  import opened Prelude

  type TaskId = string
  type DeviceId = string

  datatype StorageError = InvalidInput | NotFound

  datatype Balance = Balance(remaining: int, account: int)

  datatype Task = Task(name: string, minutes: int, required: bool)

  /** A row of `rewards`; its autoincremented id is its position plus one. */
  datatype Reward = Reward(child: ChildId, task: Option<TaskId>, minutes: int, borrowed: bool)

  /** A row of `balance_transactions`. */
  datatype AuditRow = AuditRow(child: ChildId, amount: int, reward: nat)

  /** A row of `usage_minutes`; the three columns together are the primary key. */
  datatype UsageRow = UsageRow(child: ChildId, minute: int, device: DeviceId)

  datatype Completion = Completion(child: ChildId, task: TaskId, user: string, doneAt: int)

  datatype Submission = Submission(child: ChildId, task: TaskId)

  datatype Db = Db(
    balances: map<ChildId, Balance>,
    tasks: map<TaskId, Task>,
    rewards: seq<Reward>,
    audit: seq<AuditRow>,
    usage: set<UsageRow>,
    completions: seq<Completion>,
    submissions: map<int, Submission>,
    nextSubmission: int)

  const EMPTY := Db(map[], map[], [], [], {}, [], map[], 1)

  const MINUTES_PAST := 7 * 24 * 60
  const MINUTES_FUTURE := 5

  // ---- Rewards -------------------------------------------------------------------------

  /** What one reward does: the two column deltas and the audit row's amount, if there is one. */
  datatype Effect = Effect(remaining: int, account: int, audit: Option<int>)

  function RewardEffect(mins: int, borrowed: bool, account: int): Effect {
    if borrowed then
      Effect(mins, -mins, Some(-mins))
    else if mins < 0 then
      Effect(mins, 0, None)
    else if account < 0 then
      var repay := Min(mins, Abs(account));
      Effect(mins - repay, repay, Some(repay))
    else
      Effect(mins, 0, None)
  }

  function AuditRows(effect: Effect, child: ChildId, reward: nat): seq<AuditRow> {
    match effect.audit
    case None => []
    case Some(amount) => [AuditRow(child, amount, reward)]
  }

  /** Insert the reward row and its audit row, and move both columns. */
  function Grant(db: Db, child: ChildId, task: Option<TaskId>, mins: int, borrowed: bool): Db
    requires child in db.balances
  {
    var b := db.balances[child];
    var e := RewardEffect(mins, borrowed, b.account);
    db.(balances := db.balances[child := Balance(b.remaining + e.remaining, b.account + e.account)],
        rewards := db.rewards + [Reward(child, task, mins, borrowed)],
        audit := db.audit + AuditRows(e, child, |db.rewards| + 1))
  }

  function Complete(db: Db, row: Completion): Db {
    db.(completions := db.completions + [row])
  }

  function AddReward(db: Db, child: ChildId, mins: int, task: Option<TaskId>, borrowed: bool,
                     completion: Option<Completion>): Result<Db, StorageError>
  {
    if child !in db.balances then Err(NotFound)
    else
      var granted := Grant(db, child, task, mins, borrowed);
      Ok(match completion
         case None => granted
         case Some(row) => Complete(granted, row))
  }

  // ---- Usage ---------------------------------------------------------------------------

  function NowMinute(now: int): int { DivTrunc(now, 60) }

  predicate InWindow(minute: int, now: int) {
    NowMinute(now) - MINUTES_PAST <= minute <= NowMinute(now) + MINUTES_FUTURE
  }

  function BatchRows(child: ChildId, device: DeviceId, minutes: seq<int>): set<UsageRow> {
    set m | m in minutes :: UsageRow(child, m, device)
  }

  /** Charge the rows of the batch that are not in the table yet, or refuse the whole batch. */
  function ProcessUsage(db: Db, child: ChildId, device: DeviceId, minutes: seq<int>, now: int)
    : Result<Db, StorageError>
  {
    if minutes == [] || exists m | m in minutes :: !InWindow(m, now) then Err(InvalidInput)
    else if child !in db.balances then Err(NotFound)
    else
      var b := db.balances[child];
      var unseen := BatchRows(child, device, minutes) - db.usage;
      Ok(db.(usage := db.usage + unseen,
             balances := db.balances[child := b.(remaining := b.remaining - |unseen|)]))
  }

  // ---- Submissions ---------------------------------------------------------------------

  function SubmitTask(db: Db, child: ChildId, task: TaskId): Db {
    db.(submissions := db.submissions[db.nextSubmission := Submission(child, task)],
        nextSubmission := db.nextSubmission + 1)
  }

  /** Ok(None) when no pending submission with a known task has this id. */
  function ApproveSubmission(db: Db, id: int, user: string, now: int): Result<Option<(Db, ChildId)>, StorageError> {
    if id !in db.submissions || db.submissions[id].task !in db.tasks then Ok(None)
    else
      var s := db.submissions[id];
      if s.child !in db.balances then Err(NotFound)
      else
        var granted := Grant(db, s.child, Some(s.task), db.tasks[s.task].minutes, false);
        var done := Complete(granted, Completion(s.child, s.task, user, now));
        Ok(Some((done.(submissions := done.submissions - {id}), s.child)))
  }

  function DiscardSubmission(db: Db, id: int): Db {
    db.(submissions := db.submissions - {id})
  }

  // ---- Seeding and required tasks ------------------------------------------------------

  /** Children without a row get an empty one. */
  function Seeded(balances: map<ChildId, Balance>, children: set<ChildId>): map<ChildId, Balance> {
    (map c | c in children :: Balance(0, 0)) + balances
  }

  function Seed(db: Db, children: set<ChildId>, tasks: map<TaskId, Task>): Db {
    db.(balances := Seeded(db.balances, children), tasks := db.tasks + tasks)
  }

  function RequiredTasks(db: Db): set<TaskId> {
    set t | t in db.tasks && db.tasks[t].required
  }

  /** Midnight before this second, in UTC. */
  function DayStart(now: int): int { now / 86400 * 86400 }

  predicate DoneOnDayOf(row: Completion, child: ChildId, now: int) {
    row.child == child && DayStart(now) <= row.doneAt < DayStart(now) + 86400
  }

  predicate AllRequiredTasksDoneToday(db: Db, child: ChildId, now: int) {
    var completed := set row | row in db.completions && DoneOnDayOf(row, child, now) :: row.task;
    RequiredTasks(db) <= completed
  }

  // ---- The API's requests as a transition system ----------------------------------------

  datatype Request =
    | Configure(children: set<ChildId>, tasks: map<TaskId, Task>)
    | PostReward(child: ChildId, taskId: Option<TaskId>, minutes: Option<int>, borrowed: bool, user: string, now: int)
    | PostUsage(child: ChildId, device: DeviceId, batch: seq<int>, now: int)
    | PostSubmission(child: ChildId, task: TaskId)
    | PostApproval(id: int, user: string, now: int)
    | PostDiscard(id: int)

  /** What a request committed. */
  datatype Event =
    | Nothing
    | Granted(child: ChildId, task: Option<TaskId>, minutes: int, borrowed: bool, completion: Option<Completion>)
    | Charged(rows: set<UsageRow>)
    | Submitted(id: int, child: ChildId, task: Option<TaskId>)
    | Approved(id: int, child: ChildId, task: Option<TaskId>, minutes: int, done: Completion)
    | Discarded(id: int)

  /** The minutes a reward request stands for, or None when the request is refused. */
  function ValidatedMinutes(db: Db, taskId: Option<TaskId>, minutes: Option<int>, borrowed: bool): Option<int> {
    var chosen := match taskId
                  case Some(t) => if t in db.tasks then Some(db.tasks[t].minutes) else None
                  case None => minutes;
    if chosen.None? || chosen.value == 0 || (borrowed && chosen.value <= 0) then None else chosen
  }

  function Step(db: Db, request: Request): (Db, Event) {
    match request
    case Configure(children, tasks) => (Seed(db, children, tasks), Nothing)
    case PostReward(child, taskId, minutes, borrowed, user, now) =>
      (match ValidatedMinutes(db, taskId, minutes, borrowed)
       case None => (db, Nothing)
       case Some(mins) =>
         var completion := match taskId
                           case None => None
                           case Some(t) => Some(Completion(child, t, user, now));
         match AddReward(db, child, mins, taskId, borrowed, completion)
         case Err(_) => (db, Nothing)
         case Ok(after) => (after, Granted(child, taskId, mins, borrowed, completion)))
    case PostUsage(child, device, batch, now) =>
      (match ProcessUsage(db, child, device, batch, now)
       case Err(_) => (db, Nothing)
       case Ok(after) => (after, Charged(BatchRows(child, device, batch))))
    case PostSubmission(child, task) =>
      if task in db.tasks then (SubmitTask(db, child, task), Submitted(db.nextSubmission, child, Some(task)))
      else (db, Nothing)
    case PostApproval(id, user, now) =>
      (match ApproveSubmission(db, id, user, now)
       case Err(_) => (db, Nothing)
       case Ok(None) => (db, Nothing)
       case Ok(Some((after, child))) =>
         var s := db.submissions[id];
         (after, Approved(id, child, Some(s.task), db.tasks[s.task].minutes, Completion(child, s.task, user, now))))
    case PostDiscard(id) =>
      (DiscardSubmission(db, id), if id in db.submissions then Discarded(id) else Nothing)
  }

  function Run(requests: seq<Request>): (Db, seq<Event>) {
    if requests == [] then (EMPTY, [])
    else
      var n := |requests| - 1;
      var before := Run(requests[..n]);
      var step := Step(before.0, requests[n]);
      (step.0, before.1 + [step.1])
  }

  /** The tables after these requests, from any tables. */
  function RunFrom(db: Db, requests: seq<Request>): Db {
    if requests == [] then db else Step(RunFrom(db, requests[..|requests| - 1]), requests[|requests| - 1]).0
  }

  lemma StepKeepsChildren(db: Db, request: Request, c: ChildId)
    requires c in db.balances
    ensures c in Step(db, request).0.balances
  {
  }

  lemma {:induction false} RunKeepsChildren(db: Db, requests: seq<Request>, c: ChildId)
    requires c in db.balances
    ensures c in RunFrom(db, requests).balances
  {
    if requests != [] {
      var n := |requests| - 1;
      RunKeepsChildren(db, requests[..n], c);
      StepKeepsChildren(RunFrom(db, requests[..n]), requests[n], c);
    }
  }
}
