/** What each request does to the tables, said about the request and the rows alone. */
module Requests {
  import opened Prelude
  import opened Ledger
  import opened History
  import opened Runs

  /** All tables but the two a grant writes, and all balances but one. */
  ghost predicate Elsewhere(db: Db, after: Db, child: ChildId) {
    && after.tasks == db.tasks && after.balances.Keys == db.balances.Keys
    && forall c | c in db.balances && c != child :: after.balances[c] == db.balances[c]
  }

  /** What a grant of these minutes leaves in the columns of a child that owes nothing or something. */
  ghost predicate Credited(before: Balance, after: Balance, mins: int, borrowed: bool) {
    && after.remaining + after.account == before.remaining + before.account + (if borrowed then 0 else mins)
    && (before.account <= 0 ==>
          after.account == if borrowed then before.account - mins
                           else if mins < 0 then before.account
                           else Min(0, before.account + mins))
  }

  /** The minutes asked for: the task's own if one is named, else those given; 0 when there are none. */
  function Asked(db: Db, taskId: Option<TaskId>, minutes: Option<int>): int {
    match (taskId, minutes)
    case (Some(t), _) => if t in db.tasks then db.tasks[t].minutes else 0
    case (None, Some(m)) => m
    case (None, None) => 0
  }

  /** A reward is refused for an unknown child, for no minutes, and for a loan of less than nothing. Otherwise one
    * reward row records it, the columns are credited, and a task that is named is completed by it, in this
    * child's name, now: it counts as done today. */
  lemma RewardRequest(db: Db, child: ChildId, taskId: Option<TaskId>, minutes: Option<int>, borrowed: bool,
                      user: string, now: int)
    ensures
      var after := Step(db, PostReward(child, taskId, minutes, borrowed, user, now)).0;
      var mins := Asked(db, taskId, minutes);
      if child !in db.balances || mins == 0 || (borrowed && mins < 0) then after == db
      else
        && Elsewhere(db, after, child) && after.usage == db.usage && after.submissions == db.submissions
        && after.rewards == db.rewards + [Reward(child, taskId, mins, borrowed)]
        && Credited(db.balances[child], after.balances[child], mins, borrowed)
        && after.completions
           == db.completions + (if taskId.None? then [] else [Completion(child, taskId.value, user, now)])
        && (taskId.Some? ==> DoneToday(after, child, taskId.value, now))
  {
    var after := Step(db, PostReward(child, taskId, minutes, borrowed, user, now)).0;
    var mins := Asked(db, taskId, minutes);
    if child in db.balances && mins != 0 && !(borrowed && mins < 0) && taskId.Some? {
      var row := Completion(child, taskId.value, user, now);
      assert after.completions[|db.completions|] == row;
    }
  }

  /** A usage batch is accepted if and only if it is not empty, the child is known, and every minute lies between
    * seven days before the current minute and five minutes after. It then leaves a row for each of its minutes,
    * and each new row costs one minute. */
  lemma UsageRequest(db: Db, child: ChildId, device: DeviceId, batch: seq<int>, now: int)
    ensures
      var after := Step(db, PostUsage(child, device, batch, now)).0;
      var minute := if now < 0 then -((-now) / 60) else now / 60;
      if batch != [] && child in db.balances && (forall m | m in batch :: minute - 10080 <= m <= minute + 5) then
        && (forall r :: r in after.usage <==>
              r in db.usage || (r.child == child && r.device == device && r.minute in batch))
        && after.balances == db.balances[child := Balance(
             db.balances[child].remaining - |after.usage - db.usage|, db.balances[child].account)]
        && after == db.(usage := after.usage, balances := after.balances)
      else after == db
  {
    var unseen := BatchRows(child, device, batch) - db.usage;
    assert db.usage + unseen - db.usage == unseen;
    assert forall m :: InWindow(m, now) <==>
      var minute := if now < 0 then -((-now) / 60) else now / 60;
      minute - 10080 <= m <= minute + 5;
  }

  /** Submitting a known task stores who and what under the next id; an unknown one changes nothing. */
  lemma SubmissionRequest(db: Db, child: ChildId, task: TaskId)
    ensures
      var after := Step(db, PostSubmission(child, task)).0;
      if task in db.tasks then
        after == db.(submissions := db.submissions[db.nextSubmission := Submission(child, task)],
                     nextSubmission := db.nextSubmission + 1)
      else after == db
  {
  }

  /** An approval settles a pending submission of a known task and child: the task's minutes are credited to the
    * child, rewarded and completed for it, now. Any other approval changes nothing. */
  lemma ApprovalRequest(db: Db, id: int, user: string, now: int)
    ensures
      var after := Step(db, PostApproval(id, user, now)).0;
      if id in db.submissions && db.submissions[id].task in db.tasks && db.submissions[id].child in db.balances then
        var Submission(child, task) := db.submissions[id];
        && Elsewhere(db, after, child) && after.usage == db.usage
        && after.submissions == db.submissions - {id} && after.nextSubmission == db.nextSubmission
        && after.rewards == db.rewards + [Reward(child, Some(task), db.tasks[task].minutes, false)]
        && Credited(db.balances[child], after.balances[child], db.tasks[task].minutes, false)
        && after.completions == db.completions + [Completion(child, task, user, now)]
        && DoneToday(after, child, task, now)
      else after == db
  {
    if id in db.submissions && db.submissions[id].task in db.tasks && db.submissions[id].child in db.balances {
      var after, row := Step(db, PostApproval(id, user, now)).0,
                        Completion(db.submissions[id].child, db.submissions[id].task, user, now);
      assert after.completions[|db.completions|] == row;
    }
  }

  /** Configuring keeps every balance, opens an empty one for each new child, and takes over every configured task
    * as it now is; tasks no longer configured stay. */
  lemma ConfigureRequest(db: Db, children: set<ChildId>, tasks: map<TaskId, Task>)
    ensures
      var after := Step(db, Configure(children, tasks)).0;
      && after == db.(balances := after.balances, tasks := after.tasks)
      && after.balances.Keys == db.balances.Keys + children && after.tasks.Keys == db.tasks.Keys + tasks.Keys
      && (forall c | c in after.balances ::
            after.balances[c] == if c in db.balances then db.balances[c] else Balance(0, 0))
      && (forall t | t in after.tasks :: after.tasks[t] == if t in tasks then tasks[t] else db.tasks[t])
  {
  }

  // ---- The audit trail ---------------------------------------------------------------------------

  ghost predicate RowBelongs(a: AuditRow, rewards: seq<Reward>) {
    && 1 <= a.reward <= |rewards| && rewards[a.reward - 1].child == a.child
    && if rewards[a.reward - 1].borrowed then a.amount == -rewards[a.reward - 1].minutes
       else 0 <= a.amount <= rewards[a.reward - 1].minutes
  }

  /** Each audit row belongs to a reward row of its child, later ones to later rewards: the whole of a loan, or no
    * more than an earning. */
  ghost predicate AuditBelongs(db: Db) {
    && (forall i | 0 <= i < |db.audit| :: RowBelongs(db.audit[i], db.rewards))
    && (forall i, j | 0 <= i < j < |db.audit| :: db.audit[i].reward < db.audit[j].reward)
  }

  lemma GrantBelongs(db: Db, child: ChildId, task: Option<TaskId>, mins: int, borrowed: bool)
    requires AuditBelongs(db) && child in db.balances
    ensures AuditBelongs(Grant(db, child, task, mins, borrowed))
  {
    var after := Grant(db, child, task, mins, borrowed);
    assert forall i | 0 <= i < |db.rewards| :: after.rewards[i] == db.rewards[i];
    assert forall i | 0 <= i < |db.audit| :: after.audit[i] == db.audit[i];
    assert |after.audit| <= |db.audit| + 1;
  }

  lemma SameBelongs(before: Db, after: Db)
    requires AuditBelongs(before) && before.audit == after.audit && before.rewards == after.rewards
    ensures AuditBelongs(after)
  {
  }

  lemma RewardBelongs(db: Db, request: Request)
    requires AuditBelongs(db) && request.PostReward?
    ensures AuditBelongs(Step(db, request).0)
  {
    var mins := ValidatedMinutes(db, request.taskId, request.minutes, request.borrowed);
    if mins.Some? && request.child in db.balances {
      GrantBelongs(db, request.child, request.taskId, mins.value, request.borrowed);
      SameBelongs(Grant(db, request.child, request.taskId, mins.value, request.borrowed), Step(db, request).0);
    }
  }

  lemma ApprovalBelongs(db: Db, id: int, user: string, now: int)
    requires AuditBelongs(db)
    ensures AuditBelongs(Step(db, PostApproval(id, user, now)).0)
  {
    if id in db.submissions && db.submissions[id].task in db.tasks && db.submissions[id].child in db.balances {
      var s := db.submissions[id];
      ApprovalGrants(db, id, user, now);
      GrantBelongs(db, s.child, Some(s.task), db.tasks[s.task].minutes, false);
      SameBelongs(Grant(db, s.child, Some(s.task), db.tasks[s.task].minutes, false),
                  Step(db, PostApproval(id, user, now)).0);
    }
  }

  lemma StepBelongs(db: Db, request: Request)
    requires AuditBelongs(db)
    ensures AuditBelongs(Step(db, request).0)
  {
    match request
    case PostReward(_, _, _, _, _, _) => RewardBelongs(db, request);
    case PostApproval(id, user, now) => ApprovalBelongs(db, id, user, now);
    case PostUsage(_, _, _, _) => SameBelongs(db, Step(db, request).0);
    case Configure(_, _) => SameBelongs(db, Step(db, request).0);
    case PostSubmission(_, _) => SameBelongs(db, Step(db, request).0);
    case PostDiscard(_) => SameBelongs(db, Step(db, request).0);
  }

  /** In every reachable state. */
  lemma {:induction false} AuditTrail(requests: seq<Request>)
    ensures AuditBelongs(Run(requests).0)
  {
    if requests != [] {
      var n := |requests| - 1;
      AuditTrail(requests[..n]);
      StepBelongs(Run(requests[..n]).0, requests[n]);
    }
  }
}
