/** The storage layer: tables updated in place inside transactions.
  *
  * Every method is proved against the transition of the same name in module Ledger, whole state
  * included. A transaction that fails half way puts the rows it had inserted back.
  */
module Storage {
  import opened Prelude
  import L = Ledger

  class Store {
    var balances: map<ChildId, L.Balance>
    var tasks: map<L.TaskId, L.Task>
    var rewards: seq<L.Reward>
    var audit: seq<L.AuditRow>
    var usage: set<L.UsageRow>
    var completions: seq<L.Completion>
    var submissions: map<int, L.Submission>
    var nextSubmission: int

    function Db(): L.Db
      reads this
    {
      L.Db(balances, tasks, rewards, audit, usage, completions, submissions, nextSubmission)
    }

    constructor ()
      ensures Db() == L.EMPTY
    {
      balances, tasks, rewards, audit := map[], map[], [], [];
      usage, completions, submissions, nextSubmission := {}, [], map[], 1;
    }

    /** Insert the audit row, if the reward needs one, and say how far each column moves. */
    method ApplyRewardToBalance(child: ChildId, mins: int, borrowed: bool, account: int, rewardId: nat)
      returns (remainingDelta: int, balanceDelta: int)
      modifies this`audit
      ensures
        var e := L.RewardEffect(mins, borrowed, account);
        && remainingDelta == e.remaining && balanceDelta == e.account
        && audit == old(audit) + L.AuditRows(e, child, rewardId)
    {
      if borrowed {
        audit := audit + [L.AuditRow(child, -mins, rewardId)];
        return mins, -mins;
      } else if mins < 0 {
        return mins, 0;
      } else if account < 0 {
        var repay := Min(mins, Abs(account));
        var surplus := mins - repay;
        audit := audit + [L.AuditRow(child, repay, rewardId)];
        return surplus, repay;
      } else {
        return mins, 0;
      }
    }

    method AddRewardMinutes(child: ChildId, mins: int, task: Option<L.TaskId>, borrowed: bool,
                            completion: Option<L.Completion>)
      returns (result: Result<int, L.StorageError>)
      modifies this
      ensures
        match L.AddReward(old(Db()), child, mins, task, borrowed, completion)
        case Err(e) => result == Err(e) && Db() == old(Db())
        case Ok(after) => child in after.balances && result == Ok(after.balances[child].remaining) && Db() == after
    {
      if child !in balances {
        return Err(L.NotFound);
      }
      var account := balances[child].account;
      rewards := rewards + [L.Reward(child, task, mins, borrowed)];
      var rewardId := |rewards|;
      var remainingDelta, balanceDelta := ApplyRewardToBalance(child, mins, borrowed, account, rewardId);
      balances := balances[child := L.Balance(balances[child].remaining + remainingDelta,
                                              balances[child].account + balanceDelta)];
      if completion.Some? {
        completions := completions + [completion.value];
      }
      return Ok(balances[child].remaining);
    }

    /** Insert each row unless it conflicts with one already there, and count the inserted. */
    method InsertUsageRows(child: ChildId, device: L.DeviceId, minutes: seq<int>) returns (newCount: nat)
      modifies this`usage
      ensures usage == old(usage) + L.BatchRows(child, device, minutes)
      ensures newCount == |L.BatchRows(child, device, minutes) - old(usage)|
    {
      ghost var saved := usage;
      newCount := 0;
      for i := 0 to |minutes|
        invariant usage == saved + L.BatchRows(child, device, minutes[..i])
        invariant newCount == |L.BatchRows(child, device, minutes[..i]) - saved|
      {
        var row := L.UsageRow(child, minutes[i], device);
        ghost var before := L.BatchRows(child, device, minutes[..i]);
        BatchRowsSnoc(child, device, minutes, i);
        InsertedCount(saved, before, row);
        if row !in usage {
          usage := usage + {row};
          newCount := newCount + 1;
        }
      }
      assert minutes[..|minutes|] == minutes;
    }

    method ProcessUsageMinutes(child: ChildId, device: L.DeviceId, minutes: seq<int>, now: int)
      returns (result: Result<int, L.StorageError>)
      modifies this
      ensures
        match L.ProcessUsage(old(Db()), child, device, minutes, now)
        case Err(e) => result == Err(e) && Db() == old(Db())
        case Ok(after) => child in after.balances && result == Ok(after.balances[child].remaining) && Db() == after
    {
      if |minutes| == 0 {
        return Err(L.InvalidInput);
      }
      if exists m | m in minutes :: !L.InWindow(m, now) {
        return Err(L.InvalidInput);
      }
      var saved := usage;
      var newCount := InsertUsageRows(child, device, minutes);
      assert usage == saved + (L.BatchRows(child, device, minutes) - saved);
      if child !in balances {
        usage := saved;
        return Err(L.NotFound);
      }
      if newCount > 0 {
        balances := balances[child := balances[child].(remaining := balances[child].remaining - newCount)];
      }
      return Ok(balances[child].remaining);
    }

    static lemma InsertedCount(saved: set<L.UsageRow>, before: set<L.UsageRow>, row: L.UsageRow)
      ensures |before + {row} - saved| == |before - saved| + if row in saved + before then 0 else 1
    {
      if row in saved + before {
        assert before + {row} - saved == before - saved;
      } else {
        assert before + {row} - saved == before - saved + {row};
      }
    }

    static lemma BatchRowsSnoc(child: ChildId, device: L.DeviceId, minutes: seq<int>, i: nat)
      requires i < |minutes|
      ensures L.BatchRows(child, device, minutes[..i + 1])
           == L.BatchRows(child, device, minutes[..i]) + {L.UsageRow(child, minutes[i], device)}
    {
      assert minutes[..i + 1] == minutes[..i] + [minutes[i]];
    }

    method SubmitTask(child: ChildId, task: L.TaskId)
      modifies this
      ensures Db() == L.SubmitTask(old(Db()), child, task)
    {
      submissions := submissions[nextSubmission := L.Submission(child, task)];
      nextSubmission := nextSubmission + 1;
    }

    method ApproveSubmission(id: int, user: string, now: int)
      returns (result: Result<Option<(ChildId, int)>, L.StorageError>)
      modifies this
      ensures
        match L.ApproveSubmission(old(Db()), id, user, now)
        case Err(e) => result == Err(e) && Db() == old(Db())
        case Ok(None) => result == Ok(None) && Db() == old(Db())
        case Ok(Some((after, child))) =>
          && child in after.balances
          && result == Ok(Some((child, after.balances[child].remaining))) && Db() == after
    {
      if id !in submissions || submissions[id].task !in tasks {
        return Ok(None);
      }
      var s := submissions[id];
      if s.child !in balances {
        return Err(L.NotFound);
      }
      var mins := tasks[s.task].minutes;
      var account := balances[s.child].account;
      rewards := rewards + [L.Reward(s.child, Some(s.task), mins, false)];
      var rewardId := |rewards|;
      var remainingDelta, balanceDelta := ApplyRewardToBalance(s.child, mins, false, account, rewardId);
      balances := balances[s.child := L.Balance(balances[s.child].remaining + remainingDelta,
                                                balances[s.child].account + balanceDelta)];
      var newRemaining := balances[s.child].remaining;
      completions := completions + [L.Completion(s.child, s.task, user, now)];
      submissions := submissions - {id};
      return Ok(Some((s.child, newRemaining)));
    }

    method DiscardSubmission(id: int)
      modifies this
      ensures Db() == L.DiscardSubmission(old(Db()), id)
    {
      submissions := submissions - {id};
    }

    method SeedFromConfig(children: set<ChildId>, configured: map<L.TaskId, L.Task>)
      modifies this`balances, this`tasks
      ensures Db() == L.Seed(old(Db()), children, configured)
    {
      SeedBalances(children);
      tasks := tasks + configured;
    }

    method SeedBalances(children: set<ChildId>)
      modifies this`balances
      ensures balances == L.Seeded(old(balances), children)
    {
      ghost var before := balances;
      var rest := children;
      SeedNone(before, children);
      while rest != {}
        invariant rest <= children
        invariant balances == L.Seeded(before, children - rest)
        decreases rest
      {
        var c :| c in rest;
        SeedOne(before, children - rest, c);
        if c !in balances {
          balances := balances[c := L.Balance(0, 0)];
        }
        rest := rest - {c};
        assert children - rest == children - (rest + {c}) + {c};
      }
      assert rest == {} && children - rest == children;
    }

    static lemma SeedNone(balances: map<ChildId, L.Balance>, children: set<ChildId>)
      ensures L.Seeded(balances, children - children) == balances
    {
      assert L.Seeded(balances, {}) == balances;
    }

    static lemma SeedOne(balances: map<ChildId, L.Balance>, children: set<ChildId>, c: ChildId)
      ensures
        var some := L.Seeded(balances, children);
        L.Seeded(balances, children + {c}) == if c in some then some else some[c := L.Balance(0, 0)]
    {
      var some, more := L.Seeded(balances, children), L.Seeded(balances, children + {c});
      if c in some {
        assert more == some;
      } else {
        assert more == some[c := L.Balance(0, 0)];
      }
    }

    /** Some device of the child reported this minute. */
    predicate Reported(child: ChildId, minute: int)
      reads this
    {
      exists r :: r in usage && r.child == child && r.minute == minute
    }

    /** The child's distinct usage minutes in [minuteFrom, minuteTo), ascending. */
    method ListUsageMinutes(child: ChildId, minuteFrom: int, minuteTo: int) returns (minutes: seq<int>)
      ensures Ascending(minutes)
      ensures forall i | 0 <= i < |minutes| :: minuteFrom <= minutes[i] < minuteTo && Reported(child, minutes[i])
      ensures forall m | minuteFrom <= m < minuteTo && Reported(child, m) :: m in minutes
    {
      if minuteTo <= minuteFrom {
        return [];
      }
      minutes := [];
      for m := minuteFrom to minuteTo
        invariant Ascending(minutes)
        invariant forall i | 0 <= i < |minutes| :: minuteFrom <= minutes[i] < m && Reported(child, minutes[i])
        invariant forall x | minuteFrom <= x < m && Reported(child, x) :: x in minutes
      {
        if Reported(child, m) {
          AscendingSnoc(minutes, m);
          minutes := minutes + [m];
        }
      }
    }
  }
}
