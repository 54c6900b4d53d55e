/** Databases older than the two columns: what the migrations put into them, and what that means afterwards. */
module Upgrade {
  import opened Prelude
  import opened Ledger
  import opened History
  import opened Charging

  /** The minutes of all reward rows. */
  function Total(rewards: seq<Reward>, c: ChildId): int {
    if rewards == [] then 0
    else
      var n := |rewards| - 1;
      Total(rewards[..n], c) + if rewards[n].child == c then rewards[n].minutes else 0
  }

  lemma {:induction false} TotalParts(rewards: seq<Reward>, c: ChildId)
    ensures Total(rewards, c) == Earned(rewards, c) + Borrowed(rewards, c)
  {
    if rewards != [] {
      TotalParts(rewards[..|rewards| - 1], c);
    }
  }

  /** The first migration subtracts distinct minutes, not rows; the second clamps earnings less loans at zero. */
  function MigratedBalance(rewards: seq<Reward>, usage: set<UsageRow>, c: ChildId): Balance {
    Balance(Total(rewards, c) - |Minutes(UsageOf(usage, c))|, Migrated(rewards, c))
  }

  ghost predicate Upgraded(db: Db, c: ChildId) {
    c in db.balances && db.balances[c] == MigratedBalance(db.rewards, db.usage, c)
  }

  /** How far the two columns are from the minutes earned less the rows charged. */
  function Gap(db: Db, c: ChildId): int
    requires c in db.balances
  {
    db.balances[c].remaining + db.balances[c].account - (Earned(db.rewards, c) - |UsageOf(db.usage, c)|)
  }

  /** How far the debt is from the audit trail. */
  function AuditGap(db: Db, c: ChildId): int
    requires c in db.balances
  {
    db.balances[c].account - Audited(db.audit, c)
  }

  // ---- Whatever the gaps are, no request changes them --------------------------------------------

  lemma GrantKeepsGaps(db: Db, child: ChildId, task: Option<TaskId>, mins: int, borrowed: bool, c: ChildId)
    requires child in db.balances && c in db.balances
    ensures
      var after := Grant(db, child, task, mins, borrowed);
      Gap(after, c) == Gap(db, c) && AuditGap(after, c) == AuditGap(db, c)
  {
    WalkSnoc(db.rewards, Reward(child, task, mins, borrowed), c);
    GrantAudited(db.audit, RewardEffect(mins, borrowed, db.balances[child].account), child, |db.rewards| + 1, c);
  }

  lemma ApprovalKeepsGaps(db: Db, id: int, user: string, now: int, c: ChildId)
    requires c in db.balances
    ensures
      var after := Step(db, PostApproval(id, user, now)).0;
      c in after.balances && Gap(after, c) == Gap(db, c) && AuditGap(after, c) == AuditGap(db, c)
  {
    if id in db.submissions && db.submissions[id].task in db.tasks && db.submissions[id].child in db.balances {
      var s := db.submissions[id];
      ApprovalGrants(db, id, user, now);
      GrantKeepsGaps(db, s.child, Some(s.task), db.tasks[s.task].minutes, false, c);
    } else {
      assert Step(db, PostApproval(id, user, now)).0 == db;
    }
  }

  lemma UsageKeepsGaps(db: Db, child: ChildId, device: DeviceId, batch: seq<int>, now: int, c: ChildId)
    requires c in db.balances
    ensures
      var after := Step(db, PostUsage(child, device, batch, now)).0;
      c in after.balances && Gap(after, c) == Gap(db, c) && AuditGap(after, c) == AuditGap(db, c)
  {
    if ProcessUsage(db, child, device, batch, now).Ok? {
      UsageGrows(db.usage, BatchRows(child, device, batch) - db.usage, child, c);
    }
  }

  lemma RewardKeepsGaps(db: Db, request: Request, c: ChildId)
    requires request.PostReward? && c in db.balances
    ensures
      var after := Step(db, request).0;
      c in after.balances && Gap(after, c) == Gap(db, c) && AuditGap(after, c) == AuditGap(db, c)
  {
    var mins := ValidatedMinutes(db, request.taskId, request.minutes, request.borrowed);
    if mins.Some? && request.child in db.balances {
      GrantKeepsGaps(db, request.child, request.taskId, mins.value, request.borrowed, c);
    }
  }

  lemma StepKeepsGaps(db: Db, request: Request, c: ChildId)
    requires c in db.balances
    ensures
      var after := Step(db, request).0;
      c in after.balances && Gap(after, c) == Gap(db, c) && AuditGap(after, c) == AuditGap(db, c)
  {
    match request
    case PostReward(_, _, _, _, _, _) => RewardKeepsGaps(db, request, c);
    case PostUsage(child, device, batch, now) => UsageKeepsGaps(db, child, device, batch, now, c);
    case PostApproval(id, user, now) => ApprovalKeepsGaps(db, id, user, now, c);
    case _ =>
  }

  /** From any tables, every run of requests leaves a child's columns as far from its rows and its audit trail as
    * they were. */
  lemma {:induction false} RunKeepsGaps(db: Db, requests: seq<Request>, c: ChildId)
    requires c in db.balances
    ensures
      var after := RunFrom(db, requests);
      c in after.balances && Gap(after, c) == Gap(db, c) && AuditGap(after, c) == AuditGap(db, c)
  {
    if requests != [] {
      var n := |requests| - 1;
      RunKeepsGaps(db, requests[..n], c);
      StepKeepsGaps(RunFrom(db, requests[..n]), requests[n], c);
    }
  }

  // ---- When a migrated database conserves minutes ------------------------------------------------

  /** On a migrated database, and after any requests on it, remaining and debt account for the minutes earned less
    * the rows charged if and only if the rows that share a minute and the loans make up exactly the migrated debt.
    * With no loans yet, as when the flag is added, and no net penalty that means: no shared minute. */
  lemma {:induction false} MigratedConservation(db: Db, requests: seq<Request>, c: ChildId)
    requires Upgraded(db, c)
    ensures
      var after, rows := RunFrom(db, requests), UsageOf(db.usage, c);
      && c in after.balances
      && (Gap(after, c) == 0 <==>
            |rows| - |Minutes(rows)| + Borrowed(db.rewards, c) == -Migrated(db.rewards, c))
      && (Borrowed(db.rewards, c) == 0 && 0 <= Earned(db.rewards, c) ==> (Gap(after, c) == 0 <==> !Shared(rows)))
  {
    RunKeepsGaps(db, requests, c);
    TotalParts(db.rewards, c);
    MinutesAndRows(UsageOf(db.usage, c), c);
  }

  lemma OneRow(r: Reward, c: ChildId)
    requires r.child == c && !r.borrowed
    ensures Earned([r], c) == Total([r], c) == r.minutes && Borrowed([r], c) == 0
  {
    var rewards := [r];
    var front := rewards[..|rewards| - 1];
    assert front == [] && rewards[|rewards| - 1] == r;
    assert Earned(front, c) == 0 && Total(front, c) == 0 && Borrowed(front, c) == 0;
    assert Borrowed(rewards, c) == Borrowed(front, c);
  }

  /** A penalty alone opens the gap: it is taken from the remaining minutes and counted as debt as well. */
  lemma {:induction false} PenaltyCountsTwice(c: ChildId, penalty: int)
    requires penalty < 0
    ensures MigratedBalance([Reward(c, None, penalty, false)], {}, c) == Balance(penalty, penalty)
  {
    OneRow(Reward(c, None, penalty, false), c);
    assert UsageOf({}, c) == {};
    assert Minutes(UsageOf({}, c)) == {};
  }
}
