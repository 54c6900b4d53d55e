/** What the ledger's columns mean over whole histories of requests. */
module History {
  import opened Prelude
  import opened Ledger

  // ---- Reading a child's history off the tables ------------------------------------------

  /** The step one reward makes in the debt walk: up for an earning, down for a loan, none for a penalty. */
  function WalkStep(r: Reward): int {
    if r.borrowed then -r.minutes else if r.minutes < 0 then 0 else r.minutes
  }

  function Walk(rewards: seq<Reward>, c: ChildId): seq<int> {
    if rewards == [] then []
    else
      var n := |rewards| - 1;
      Walk(rewards[..n], c) + if rewards[n].child == c then [WalkStep(rewards[n])] else []
  }

  /** All minutes granted without a loan, penalties included. */
  function Earned(rewards: seq<Reward>, c: ChildId): int {
    if rewards == [] then 0
    else
      var n := |rewards| - 1;
      Earned(rewards[..n], c) + if rewards[n].child == c && !rewards[n].borrowed then rewards[n].minutes else 0
  }

  function Audited(audit: seq<AuditRow>, c: ChildId): int {
    if audit == [] then 0
    else
      var n := |audit| - 1;
      Audited(audit[..n], c) + if audit[n].child == c then audit[n].amount else 0
  }

  function UsageOf(usage: set<UsageRow>, c: ChildId): set<UsageRow> {
    set r | r in usage && r.child == c
  }

  /** The walk reflected at zero: earnings above the debt are cut off. */
  function Reflected(xs: seq<int>): (a: int)
    ensures a <= 0
  {
    if xs == [] then 0 else Min(0, Reflected(xs[..|xs| - 1]) + xs[|xs| - 1])
  }

  lemma WalkSnoc(rewards: seq<Reward>, r: Reward, c: ChildId)
    ensures Walk(rewards + [r], c) == Walk(rewards, c) + if r.child == c then [WalkStep(r)] else []
    ensures Earned(rewards + [r], c) == Earned(rewards, c) + if r.child == c && !r.borrowed then r.minutes else 0
  {
    assert (rewards + [r])[..|rewards|] == rewards;
  }

  lemma AuditedSnoc(audit: seq<AuditRow>, row: AuditRow, c: ChildId)
    ensures Audited(audit + [row], c) == Audited(audit, c) + if row.child == c then row.amount else 0
  {
    assert (audit + [row])[..|audit|] == audit;
  }

  lemma ReflectedSnoc(xs: seq<int>, x: int)
    ensures Reflected(xs + [x]) == Min(0, Reflected(xs) + x)
  {
    assert (xs + [x])[..|xs|] == xs;
  }

  // ---- The invariant of every reachable state ---------------------------------------------

  /** The two columns against the walk, the earned minutes, the audited amounts and the charged rows. */
  ghost predicate AccountedAs(b: Option<Balance>, walk: seq<int>, earned: int, audited: int, used: nat) {
    match b
    case Some(Balance(remaining, account)) =>
      account == Reflected(walk) && account == audited && remaining + account == earned - used
    case None =>
      walk == [] && earned == 0 && audited == 0 && used == 0
  }

  function BalanceOf(db: Db, c: ChildId): Option<Balance> {
    if c in db.balances then Some(db.balances[c]) else None
  }

  ghost predicate Accounted(db: Db, c: ChildId) {
    AccountedAs(BalanceOf(db, c), Walk(db.rewards, c), Earned(db.rewards, c), Audited(db.audit, c),
                |UsageOf(db.usage, c)|)
  }

  /** One reward moves the debt as the reflected walk does, accounts for every minute it grants, and writes
    * to the audit trail exactly what it did to the debt. */
  lemma {:induction false} EffectReflects(mins: int, borrowed: bool, account: int)
    requires account <= 0 && (borrowed ==> mins > 0)
    ensures
      var e := RewardEffect(mins, borrowed, account);
      && account + e.account == Min(0, account + WalkStep(Reward("", None, mins, borrowed)))
      && e.remaining + e.account == (if borrowed then 0 else mins)
      && e.account == (if e.audit.Some? then e.audit.value else 0)
  {
  }

  lemma GrantAudited(audit: seq<AuditRow>, e: Effect, child: ChildId, reward: nat, c: ChildId)
    ensures Audited(audit + AuditRows(e, child, reward), c)
         == Audited(audit, c) + if c == child && e.audit.Some? then e.audit.value else 0
  {
    var rows := AuditRows(e, child, reward);
    if rows == [] {
      assert audit + rows == audit;
    } else {
      AuditedSnoc(audit, rows[0], c);
    }
  }

  lemma GrantChild(b: Balance, walk: seq<int>, earned: int, audited: int, used: nat, r: Reward)
    requires AccountedAs(Some(b), walk, earned, audited, used)
    requires r.borrowed ==> r.minutes > 0
    ensures
      var e := RewardEffect(r.minutes, r.borrowed, b.account);
      AccountedAs(Some(Balance(b.remaining + e.remaining, b.account + e.account)), walk + [WalkStep(r)],
                  earned + if r.borrowed then 0 else r.minutes,
                  audited + if e.audit.Some? then e.audit.value else 0, used)
  {
    ReflectedSnoc(walk, WalkStep(r));
    EffectReflects(r.minutes, r.borrowed, b.account);
  }

  lemma GrantAccounts(db: Db, child: ChildId, task: Option<TaskId>, mins: int, borrowed: bool, c: ChildId)
    requires child in db.balances && Accounted(db, child) && Accounted(db, c)
    requires borrowed ==> mins > 0
    ensures Accounted(Grant(db, child, task, mins, borrowed), c)
  {
    var r := Reward(child, task, mins, borrowed);
    var after := Grant(db, child, task, mins, borrowed);
    WalkSnoc(db.rewards, r, c);
    GrantAudited(db.audit, RewardEffect(mins, borrowed, db.balances[child].account), child, |db.rewards| + 1, c);
    if c == child {
      GrantChild(db.balances[child], Walk(db.rewards, c), Earned(db.rewards, c), Audited(db.audit, c),
                 |UsageOf(db.usage, c)|, r);
    } else {
      assert Walk(after.rewards, c) == Walk(db.rewards, c);
      assert BalanceOf(after, c) == BalanceOf(db, c);
    }
  }

  lemma UsageAccounts(db: Db, child: ChildId, device: DeviceId, minutes: seq<int>, now: int, c: ChildId)
    requires Accounted(db, c)
    requires ProcessUsage(db, child, device, minutes, now).Ok?
    ensures Accounted(ProcessUsage(db, child, device, minutes, now).value, c)
  {
    var unseen := BatchRows(child, device, minutes) - db.usage;
    UsageGrows(db.usage, unseen, child, c);
    assert Accounted(db, c);
  }

  lemma UsageGrows(usage: set<UsageRow>, unseen: set<UsageRow>, child: ChildId, c: ChildId)
    requires unseen !! usage && forall r | r in unseen :: r.child == child
    ensures |UsageOf(usage + unseen, c)| == |UsageOf(usage, c)| + if c == child then |unseen| else 0
  {
    if c == child {
      assert UsageOf(usage + unseen, c) == UsageOf(usage, c) + unseen;
    } else {
      assert UsageOf(usage + unseen, c) == UsageOf(usage, c);
    }
  }

  lemma ConfigureAccounts(db: Db, children: set<ChildId>, tasks: map<TaskId, Task>, c: ChildId)
    requires Accounted(db, c)
    ensures Accounted(Seed(db, children, tasks), c)
  {
    assert BalanceOf(Seed(db, children, tasks), c)
        == if c in db.balances then Some(db.balances[c]) else if c in children then Some(Balance(0, 0)) else None;
  }

  /** An approval is a grant as far as the columns and what they are checked against go. */
  lemma ApprovalGrants(db: Db, id: int, user: string, now: int)
    requires id in db.submissions && db.submissions[id].task in db.tasks && db.submissions[id].child in db.balances
    ensures
      var s, after := db.submissions[id], Step(db, PostApproval(id, user, now)).0;
      var granted := Grant(db, s.child, Some(s.task), db.tasks[s.task].minutes, false);
      after.balances == granted.balances && after.rewards == granted.rewards && after.audit == granted.audit
      && after.usage == granted.usage
  {
  }

  lemma SameTables(before: Db, after: Db, c: ChildId)
    requires Accounted(before, c)
    requires before.balances == after.balances && before.rewards == after.rewards
    requires before.audit == after.audit && before.usage == after.usage
    ensures Accounted(after, c)
  {
  }

  lemma ApprovalAccounts(db: Db, id: int, user: string, now: int, c: ChildId)
    requires Accounted(db, c) && (id in db.submissions ==> Accounted(db, db.submissions[id].child))
    ensures Accounted(Step(db, PostApproval(id, user, now)).0, c)
  {
    var after := Step(db, PostApproval(id, user, now)).0;
    if id in db.submissions && db.submissions[id].task in db.tasks && db.submissions[id].child in db.balances {
      var s := db.submissions[id];
      ApprovalGrants(db, id, user, now);
      GrantAccounts(db, s.child, Some(s.task), db.tasks[s.task].minutes, false, c);
      SameTables(Grant(db, s.child, Some(s.task), db.tasks[s.task].minutes, false), after, c);
    } else {
      assert after == db;
    }
  }

  lemma RewardAccounts(db: Db, child: ChildId, taskId: Option<TaskId>, minutes: Option<int>, borrowed: bool,
                       user: string, now: int, c: ChildId)
    requires Accounted(db, child) && Accounted(db, c)
    ensures Accounted(Step(db, PostReward(child, taskId, minutes, borrowed, user, now)).0, c)
  {
    var mins := ValidatedMinutes(db, taskId, minutes, borrowed);
    if mins.Some? && child in db.balances {
      GrantAccounts(db, child, taskId, mins.value, borrowed, c);
    }
  }

  lemma StepAccountsChild(db: Db, request: Request, c: ChildId)
    requires forall c :: Accounted(db, c)
    ensures Accounted(Step(db, request).0, c)
  {
    assert Accounted(db, c) && (request.PostReward? ==> Accounted(db, request.child));
    if request.PostApproval? && request.id in db.submissions {
      assert Accounted(db, db.submissions[request.id].child);
    }
    match request
    case Configure(children, tasks) => ConfigureAccounts(db, children, tasks, c);
    case PostReward(child, taskId, minutes, borrowed, user, now) =>
      RewardAccounts(db, child, taskId, minutes, borrowed, user, now, c);
    case PostUsage(child, device, batch, now) =>
      if ProcessUsage(db, child, device, batch, now).Ok? {
        UsageAccounts(db, child, device, batch, now, c);
      }
    case PostSubmission(child, task) =>
    case PostApproval(id, user, now) => ApprovalAccounts(db, id, user, now, c);
    case PostDiscard(id) =>
  }

  lemma StepAccounts(db: Db, request: Request)
    requires forall c :: Accounted(db, c)
    ensures forall c :: Accounted(Step(db, request).0, c)
  {
    forall c ensures Accounted(Step(db, request).0, c) {
      StepAccountsChild(db, request, c);
    }
  }

  /** Conservation and audit, in every state the API can reach from an empty database. */
  lemma {:induction false} ConservationAndAudit(requests: seq<Request>)
    ensures forall c :: Accounted(Run(requests).0, c)
    ensures forall c | c in Run(requests).0.balances :: Run(requests).0.balances[c].account <= 0
  {
    if requests != [] {
      var n := |requests| - 1;
      ConservationAndAudit(requests[..n]);
      StepAccounts(Run(requests[..n]).0, requests[n]);
    }
    assert forall c :: Accounted(Run(requests).0, c) ==>
      c in Run(requests).0.balances ==> Run(requests).0.balances[c].account <= 0;
  }

  // ---- The closed form of the debt --------------------------------------------------------

  /** m is the largest sum of a prefix of xs, the empty prefix included. */
  ghost predicate IsMaxPrefixSum(xs: seq<int>, m: int) {
    && (exists k :: 0 <= k <= |xs| && Sum(xs[..k]) == m)
    && (forall k :: 0 <= k <= |xs| ==> Sum(xs[..k]) <= m)
  }

  /** m is the smallest sum of a suffix of xs, the empty suffix included. */
  ghost predicate IsMinSuffixSum(xs: seq<int>, m: int) {
    && (exists k :: 0 <= k <= |xs| && Sum(xs[k..]) == m)
    && (forall k :: 0 <= k <= |xs| ==> m <= Sum(xs[k..]))
  }

  lemma {:induction false} SumConcat(xs: seq<int>, ys: seq<int>)
    ensures Sum(xs + ys) == Sum(xs) + Sum(ys)
  {
    if ys == [] {
      assert xs + ys == xs;
    } else {
      var n := |ys| - 1;
      SumConcat(xs, ys[..n]);
      assert (xs + ys)[..|xs + ys| - 1] == xs + ys[..n];
    }
  }

  lemma {:induction false} ReflectedIsMinSuffix(xs: seq<int>)
    ensures IsMinSuffixSum(xs, Reflected(xs))
  {
    if xs == [] {
      assert Sum(xs[0..]) == 0;
    } else {
      var n := |xs| - 1;
      var front := xs[..n];
      ReflectedIsMinSuffix(front);
      forall k | 0 <= k <= n ensures Sum(xs[k..]) == Sum(front[k..]) + xs[n] {
        assert xs[k..] == front[k..] + [xs[n]];
        SumSnoc(front[k..], xs[n]);
      }
      assert Sum(xs[|xs|..]) == 0;
      var k :| 0 <= k <= |front| && Sum(front[k..]) == Reflected(front);
      assert Sum(xs[k..]) == Reflected(front) + xs[n];
    }
  }

  /** The reflected walk is the total less the highest point the unreflected walk reached. */
  lemma {:induction false} ReflectedClosedForm(xs: seq<int>, m: int)
    requires IsMaxPrefixSum(xs, m)
    ensures Reflected(xs) == Sum(xs) - m
  {
    ReflectedIsMinSuffix(xs);
    forall k | 0 <= k <= |xs| ensures Sum(xs) == Sum(xs[..k]) + Sum(xs[k..]) {
      assert xs == xs[..k] + xs[k..];
      SumConcat(xs[..k], xs[k..]);
    }
    var i :| 0 <= i <= |xs| && Sum(xs[..i]) == m;
    assert Reflected(xs) <= Sum(xs[i..]);
    var j :| 0 <= j <= |xs| && Sum(xs[j..]) == Reflected(xs);
    assert Sum(xs[..j]) <= m;
  }

  /** The stored debt of any child in any reachable state, from its reward rows alone. */
  lemma {:induction false} DebtClosedForm(requests: seq<Request>, c: ChildId, m: int)
    requires c in Run(requests).0.balances
    requires IsMaxPrefixSum(Walk(Run(requests).0.rewards, c), m)
    ensures Run(requests).0.balances[c].account == Sum(Walk(Run(requests).0.rewards, c)) - m
    ensures IsMinSuffixSum(Walk(Run(requests).0.rewards, c), Run(requests).0.balances[c].account)
  {
    var db := Run(requests).0;
    ConservationAndAudit(requests);
    assert Accounted(db, c);
    ReflectedClosedForm(Walk(db.rewards, c), m);
    ReflectedIsMinSuffix(Walk(db.rewards, c));
  }

  // ---- The one-off migration that seeded the column ---------------------------------------

  /** The migration's MIN(0, earned - borrowed) over the reward rows. */
  function Migrated(rewards: seq<Reward>, c: ChildId): int {
    Min(0, Earned(rewards, c) - Borrowed(rewards, c))
  }

  function Borrowed(rewards: seq<Reward>, c: ChildId): int {
    if rewards == [] then 0
    else
      var n := |rewards| - 1;
      Borrowed(rewards[..n], c) + if rewards[n].child == c && rewards[n].borrowed then rewards[n].minutes else 0
  }

  function Penalties(rewards: seq<Reward>, c: ChildId): (p: int)
    ensures p <= 0
  {
    if rewards == [] then 0
    else
      var n := |rewards| - 1;
      Penalties(rewards[..n], c)
      + if rewards[n].child == c && !rewards[n].borrowed && rewards[n].minutes < 0 then rewards[n].minutes else 0
  }

  lemma {:induction false} WalkTotal(rewards: seq<Reward>, c: ChildId)
    ensures Sum(Walk(rewards, c)) == Earned(rewards, c) - Borrowed(rewards, c) - Penalties(rewards, c)
  {
    if rewards != [] {
      var n := |rewards| - 1;
      WalkTotal(rewards[..n], c);
      if rewards[n].child == c {
        SumSnoc(Walk(rewards[..n], c), WalkStep(rewards[n]));
      } else {
        assert Walk(rewards, c) == Walk(rewards[..n], c);
      }
    }
  }

  /** When the migration's debt is no deeper than the replay's: exactly while the penalties
    * do not outweigh what the replay forgave. Without penalties that is always so. */
  lemma {:induction false} MigrationAgainstReplay(rewards: seq<Reward>, c: ChildId, m: int)
    requires IsMaxPrefixSum(Walk(rewards, c), m)
    ensures Reflected(Walk(rewards, c)) <= Migrated(rewards, c) <==> 0 <= m + Penalties(rewards, c)
    ensures Penalties(rewards, c) == 0 ==> Reflected(Walk(rewards, c)) <= Migrated(rewards, c)
    ensures Penalties(rewards, c) == 0 ==>
      (Reflected(Walk(rewards, c)) == Migrated(rewards, c) <==> m == Max(0, Sum(Walk(rewards, c))))
  {
    ReflectedClosedForm(Walk(rewards, c), m);
    WalkTotal(rewards, c);
    assert Walk(rewards, c)[..0] == [];
    assert 0 <= m;
  }

  /** One penalty on a fresh child: the replay records no debt, the migration one of five. */
  lemma {:induction false} MigrationCountsPenaltyAsDebt()
    ensures
      var rewards := [Reward("kid", None, -5, false)];
      Reflected(Walk(rewards, "kid")) == 0 && Migrated(rewards, "kid") == -5
  {
    var r := Reward("kid", None, -5, false);
    assert [r][..0] == [];
    assert Walk([r], "kid") == [0];
    assert [0][..0] == [];
    assert Earned([r], "kid") == -5;
    assert Borrowed([r], "kid") == 0;
  }

  // ---- One earning or two -----------------------------------------------------------------

  /** Earning a and then b is worth the same debt as earning a + b, whatever came before and comes after. */
  lemma {:induction false} EarningsMerge(xs: seq<int>, a: nat, b: nat, ys: seq<int>)
    ensures Reflected(xs + [a, b] + ys) == Reflected(xs + [a + b] + ys)
  {
    if ys == [] {
      assert xs + [a, b] + ys == (xs + [a]) + [b];
      assert xs + [a + b] + ys == xs + [a + b];
      ReflectedSnoc(xs + [a], b);
      ReflectedSnoc(xs, a);
      ReflectedSnoc(xs, a + b);
    } else {
      var n := |ys| - 1;
      EarningsMerge(xs, a, b, ys[..n]);
      assert xs + [a, b] + ys == (xs + [a, b] + ys[..n]) + [ys[n]];
      assert xs + [a + b] + ys == (xs + [a + b] + ys[..n]) + [ys[n]];
      ReflectedSnoc(xs + [a, b] + ys[..n], ys[n]);
      ReflectedSnoc(xs + [a + b] + ys[..n], ys[n]);
    }
  }

  /** The same for both columns: granting a and then b leaves every balance where granting a + b does. */
  lemma GrantsMerge(db: Db, child: ChildId, task: Option<TaskId>, a: nat, b: nat)
    requires child in db.balances
    ensures Grant(Grant(db, child, task, a, false), child, task, b, false).balances
         == Grant(db, child, task, a + b, false).balances
  {
    var first := Grant(db, child, task, a, false).balances;
    var account := db.balances[child].account;
    assert first[child].account == if account < 0 then Min(0, account + a) else account;
    assert first.Keys == db.balances.Keys;
  }
}
