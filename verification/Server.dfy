/** The request handlers, run one at a time: validation, the storage call and the per-child cache slot.
  * What happens when they interleave is the subject of module Cache.
  */
module Server {
  import opened Prelude
  import L = Ledger
  import opened Runs
  import opened Storage

  datatype Error = BadRequest | Internal

  datatype Status = Status(effective: int, balance: int, blocked: bool)

  /** What a child may use now: nothing while a required task is open today. */
  function ChildStatus(db: L.Db, child: ChildId, now: int): Result<Status, Error> {
    if child !in db.balances then Err(Internal)
    else
      var b := db.balances[child];
      var done := L.AllRequiredTasksDoneToday(db, child, now);
      Ok(Status(if done then b.remaining else 0, b.account, !done))
  }

  /** What a status must say of the tables: the account column; blocked just when some required task has not been
    * completed today; and the remaining column, or nothing when blocked. */
  ghost predicate IsStatus(db: L.Db, child: ChildId, now: int, status: Status) {
    && child in db.balances && status.balance == db.balances[child].account
    && (status.blocked <==> exists t :: t in db.tasks && db.tasks[t].required && !DoneToday(db, child, t, now))
    && status.effective == if status.blocked then 0 else db.balances[child].remaining
  }

  lemma StatusSays(db: L.Db, child: ChildId, now: int)
    ensures ChildStatus(db, child, now).Ok? <==> child in db.balances
    ensures ChildStatus(db, child, now).Ok? ==> IsStatus(db, child, now, ChildStatus(db, child, now).value)
  {
    RequiredTasksToday(db, child, now);
  }

  /** The child has nothing to use in these tables. */
  ghost predicate NothingLeft(db: L.Db, child: ChildId, now: int)
    requires child in db.balances
  {
    || db.balances[child].remaining <= 0
    || exists t :: t in db.tasks && db.tasks[t].required && !DoneToday(db, child, t, now)
  }

  /** The effective minutes run out exactly when the stored ones do or a required task is open. */
  lemma OutOfTime(db: L.Db, child: ChildId, now: int)
    requires child in db.balances
    ensures ChildStatus(db, child, now).Ok?
    ensures ChildStatus(db, child, now).value.effective <= 0 <==> NothingLeft(db, child, now)
  {
    RequiredTasksToday(db, child, now);
  }

  class AppState {
    const store: Store
    var childrenCache: map<ChildId, Option<int>>

    constructor (store: Store)
      ensures this.store == store && childrenCache == map[]
    {
      this.store := store;
      childrenCache := map[];
    }

    function Slot(child: ChildId): Option<int>
      reads this
    {
      if child in childrenCache then childrenCache[child] else None
    }

    /** The child's slot is empty or holds the stored minutes. */
    ghost predicate CoherentAt(c: ChildId)
      reads this, store
    {
      Slot(c).Some? ==> c in store.balances && Slot(c).value == store.balances[c].remaining
    }

    /** The child's slot, created empty at the first request. */
    method ChildMutex(child: ChildId)
      modifies this`childrenCache
      ensures child in childrenCache
      ensures forall c :: Slot(c) == old(Slot(c))
    {
      if child !in childrenCache {
        childrenCache := childrenCache[child := None];
      }
    }

    /** Write the child's slot, which ChildMutex has created. */
    method Fill(child: ChildId, value: int)
      modifies this`childrenCache
      ensures Slot(child) == Some(value) && forall c | c != child :: Slot(c) == old(Slot(c))
    {
      childrenCache := childrenCache[child := Some(value)];
    }

    method ComputeChildStatus(child: ChildId, now: int) returns (status: Result<Status, Error>)
      ensures status == ChildStatus(store.Db(), child, now)
      ensures if child in store.balances then status.Ok? && IsStatus(store.Db(), child, now, status.value)
              else status == Err(Internal)
    {
      StatusSays(store.Db(), child, now);
      if child !in store.balances {
        return Err(Internal);
      }
      var remaining := store.balances[child].remaining;
      var allDone := L.AllRequiredTasksDoneToday(store.Db(), child, now);
      var effective := if allDone then remaining else 0;
      return Ok(Status(effective, store.balances[child].account, !allDone));
    }

    method RemainingMinutes(child: ChildId, now: int) returns (result: Result<int, Error>)
      requires child in childrenCache
      modifies this`childrenCache
      ensures forall c | c != child :: Slot(c) == old(Slot(c))
      ensures child in childrenCache
      ensures
        var stored := if old(Slot(child)).Some? then old(Slot(child))
                      else if child in store.balances then Some(store.balances[child].remaining) else None;
        && Slot(child) == stored
        && result == if stored.None? then Err(Internal)
                     else Ok(if L.AllRequiredTasksDoneToday(store.Db(), child, now) then stored.value else 0)
    {
      var stored: int;
      match childrenCache[child] {
        case Some(v) => stored := v;
        case None =>
          if child !in store.balances {
            return Err(Internal);
          }
          stored := store.balances[child].remaining;
          childrenCache := childrenCache[child := Some(stored)];
      }
      var allDone := L.AllRequiredTasksDoneToday(store.Db(), child, now);
      return Ok(if allDone then stored else 0);
    }

    method ApiRemaining(child: ChildId, now: int) returns (result: Result<Status, Error>)
      modifies this`childrenCache
      ensures forall c :: old(CoherentAt(c)) ==> CoherentAt(c)
      ensures result.Ok? ==> IsStatus(store.Db(), child, now, result.value)
      ensures result.Err? ==> result == Err(Internal) && (child !in store.balances)
    {
      ChildMutex(child);
      var warmed := RemainingMinutes(child, now);
      if warmed.Err? {
        return Err(Internal);
      }
      result := ComputeChildStatus(child, now);
    }

    /** The minutes a reward request stands for. */
    method Validate(taskId: Option<L.TaskId>, minutes: Option<int>, borrowed: bool) returns (result: Result<int, Error>)
      ensures
        match L.ValidatedMinutes(store.Db(), taskId, minutes, borrowed)
        case None => result == Err(BadRequest)
        case Some(mins) => result == Ok(mins)
    {
      var mins: int;
      if taskId.Some? {
        if taskId.value !in store.tasks {
          return Err(BadRequest);
        }
        mins := store.tasks[taskId.value].minutes;
      } else if minutes.Some? {
        mins := minutes.value;
      } else {
        return Err(BadRequest);
      }
      if mins == 0 {
        return Err(BadRequest);
      }
      if borrowed && mins <= 0 {
        return Err(BadRequest);
      }
      return Ok(mins);
    }

    /** With the child's mutex held: validate, grant and cache. A refused request leaves tables and
      * slot alone. */
    method RewardGrant(child: ChildId, taskId: Option<L.TaskId>, minutes: Option<int>, borrowed: bool,
                       user: string, now: int)
      returns (result: Result<(), Error>)
      requires child in store.balances
      modifies this`childrenCache, store
      ensures forall c :: old(CoherentAt(c)) ==> CoherentAt(c)
      ensures
        var step := L.Step(old(store.Db()), L.PostReward(child, taskId, minutes, borrowed, user, now));
        && store.Db() == step.0
        && (if step.1.Granted? then result == Ok(()) else result == Err(BadRequest))
        && (result.Ok? ==> child in step.0.balances && Slot(child) == Some(step.0.balances[child].remaining))
        && (result.Err? ==> Slot(child) == old(Slot(child)))
      ensures forall c | c != child :: Slot(c) == old(Slot(c))
    {
      ChildMutex(child);
      var validated := Validate(taskId, minutes, borrowed);
      if validated.Err? {
        return Err(BadRequest);
      }
      var completion := if taskId.Some? then Some(L.Completion(child, taskId.value, user, now)) else None;
      var added := store.AddRewardMinutes(child, validated.value, taskId, borrowed, completion);
      Fill(child, added.value);
      return Ok(());
    }

    /** The tables move exactly as the transition system says, and the answer is the status in them. */
    method ApiChildReward(child: ChildId, taskId: Option<L.TaskId>, minutes: Option<int>, isBorrowed: Option<bool>,
                          user: string, now: int)
      returns (result: Result<Status, Error>)
      modifies this`childrenCache, store
      ensures forall c :: old(CoherentAt(c)) ==> CoherentAt(c)
      ensures
        var borrowed := isBorrowed == Some(true);
        var step := L.Step(old(store.Db()), L.PostReward(child, taskId, minutes, borrowed, user, now));
        && store.Db() == step.0
        && (result.Ok? <==> step.1.Granted?)
        && (result.Ok? ==> IsStatus(step.0, child, now, result.value)
                           && Slot(child) == Some(step.0.balances[child].remaining))
        && (result.Err? ==> result == Err(BadRequest) && Slot(child) == old(Slot(child)))
      ensures forall c | c != child :: Slot(c) == old(Slot(c))
    {
      if child !in store.balances {
        return Err(BadRequest);
      }
      var borrowed := if isBorrowed.Some? then isBorrowed.value else false;
      var granted := RewardGrant(child, taskId, minutes, borrowed, user, now);
      if granted.Err? {
        return Err(BadRequest);
      }
      result := ComputeChildStatus(child, now);
    }

    /** The part of a heartbeat under the child's mutex: charge the batch and cache what is left. A refused batch
      * leaves tables and slot alone. */
    method HeartbeatCharge(child: ChildId, device: L.DeviceId, minutes: seq<int>, now: int)
      returns (result: Result<(), Error>)
      modifies this`childrenCache, store
      ensures forall c :: old(CoherentAt(c)) ==> CoherentAt(c)
      ensures
        var step := L.Step(old(store.Db()), L.PostUsage(child, device, minutes, now));
        && store.Db() == step.0
        && (if step.1.Charged? then result == Ok(()) else result == Err(Internal))
        && (result.Ok? ==> child in step.0.balances && Slot(child) == Some(step.0.balances[child].remaining))
        && (result.Err? ==> Slot(child) == old(Slot(child)))
      ensures forall c | c != child :: Slot(c) == old(Slot(c))
    {
      ChildMutex(child);
      var newRemaining := store.ProcessUsageMinutes(child, device, minutes, now);
      if newRemaining.Err? {
        return Err(Internal);
      }
      Fill(child, newRemaining.value);
      return Ok(());
    }

    /** What is left of an approval after its commit: take the mutex and write what was read then. */
    method WriteApproved(approved: Option<(ChildId, int)>)
      modifies this`childrenCache
      ensures
        match approved
        case None => forall c :: Slot(c) == old(Slot(c))
        case Some((child, newRemaining)) =>
          Slot(child) == Some(newRemaining) && forall c | c != child :: Slot(c) == old(Slot(c))
    {
      if approved.Some? {
        ChildMutex(approved.value.0);
        Fill(approved.value.0, approved.value.1);
      }
    }

    /** An approval with nothing between its two steps. */
    method ApproveUndisturbed(id: int, user: string, now: int)
      modifies this`childrenCache, store
      ensures forall c :: old(CoherentAt(c)) ==> CoherentAt(c)
      ensures store.Db() == L.Step(old(store.Db()), L.PostApproval(id, user, now)).0
    {
      var approved := store.ApproveSubmission(id, user, now);
      if approved.Ok? {
        WriteApproved(approved.value);
      }
    }

    /** A submission needs a known task. */
    method ApiSubmitTask(child: ChildId, task: L.TaskId) returns (result: Result<(), Error>)
      modifies store
      ensures store.Db() == L.Step(old(store.Db()), L.PostSubmission(child, task)).0
      ensures result == if task in old(store.tasks) then Ok(()) else Err(BadRequest)
      ensures forall c :: old(CoherentAt(c)) ==> CoherentAt(c)
    {
      if task !in store.tasks {
        return Err(BadRequest);
      }
      store.SubmitTask(child, task);
      return Ok(());
    }

    /** One request of somebody else. */
    method Serve(request: L.Request)
      modifies this`childrenCache, store
      ensures store.Db() == L.Step(old(store.Db()), request).0
      ensures forall c :: old(CoherentAt(c)) ==> CoherentAt(c)
    {
      match request {
        case Configure(children, tasks) => store.SeedFromConfig(children, tasks);
        case PostReward(child, taskId, minutes, borrowed, user, now) =>
          var _ := ApiChildReward(child, taskId, minutes, Some(borrowed), user, now);
        case PostUsage(child, device, batch, now) => var _ := HeartbeatCharge(child, device, batch, now);
        case PostSubmission(child, task) => var _ := ApiSubmitTask(child, task);
        case PostApproval(id, user, now) => ApproveUndisturbed(id, user, now);
        case PostDiscard(id) => store.DiscardSubmission(id);
      }
    }

    /** Requests of others that come between two steps of one. */
    method ServeAll(requests: seq<L.Request>)
      modifies this`childrenCache, store
      ensures store.Db() == L.RunFrom(old(store.Db()), requests)
      ensures forall c :: old(CoherentAt(c)) ==> CoherentAt(c)
    {
      for i := 0 to |requests|
        invariant store.Db() == L.RunFrom(old(store.Db()), requests[..i])
        invariant forall c :: old(CoherentAt(c)) ==> CoherentAt(c)
      {
        assert requests[..i + 1][..i] == requests[..i];
        Serve(requests[i]);
      }
      assert requests[..|requests|] == requests;
    }

    /** Charge the batch under the mutex, let go, and read the status when other requests may have committed. */
    method ApiDeviceHeartbeat(child: ChildId, device: L.DeviceId, minutes: seq<int>, now: int,
                              meanwhile: seq<L.Request>, readAt: int)
      returns (result: Result<Status, Error>)
      modifies this`childrenCache, store
      ensures forall c :: old(CoherentAt(c)) ==> CoherentAt(c)
      ensures
        var step := L.Step(old(store.Db()), L.PostUsage(child, device, minutes, now));
        if step.1.Charged? then
          && store.Db() == L.RunFrom(step.0, meanwhile) && child in store.balances
          && result.Ok? && IsStatus(store.Db(), child, readAt, result.value)
        else store.Db() == step.0 && result == Err(Internal)
    {
      var charged := HeartbeatCharge(child, device, minutes, now);
      if charged.Err? {
        return Err(Internal);
      }
      L.RunKeepsChildren(store.Db(), meanwhile, child);
      ServeAll(meanwhile);
      result := ComputeChildStatus(child, readAt);
    }

    /** Commit first, and only when other requests may have committed too take the mutex and write. The child's
      * slot then holds the stored minutes as of the approval's own commit. */
    method ApiApproveSubmission(id: int, user: string, now: int, meanwhile: seq<L.Request>)
      returns (result: Result<(), Error>)
      modifies this`childrenCache, store
      ensures
        var step := L.Step(old(store.Db()), L.PostApproval(id, user, now));
        if step.1.Approved? then
          var child := step.1.child;
          && store.Db() == L.RunFrom(step.0, meanwhile) && result == Ok(())
          && child in step.0.balances && child in store.balances
          && Slot(child) == Some(step.0.balances[child].remaining)
          && (CoherentAt(child) <==> store.balances[child].remaining == step.0.balances[child].remaining)
          && forall c | c != child :: old(CoherentAt(c)) ==> CoherentAt(c)
        else
          && store.Db() == old(store.Db()) && (forall c :: Slot(c) == old(Slot(c)))
          && result == if id in old(store.submissions) && old(store.submissions)[id].task in old(store.tasks)
                       then Err(Internal) else Ok(())
    {
      ghost var step := L.Step(store.Db(), L.PostApproval(id, user, now));
      ApprovalIsAllOrNothing(store.Db(), id, user, now);
      var approved := store.ApproveSubmission(id, user, now);
      match approved {
        case Err(_) => return Err(Internal);
        case Ok(None) => return Ok(());
        case Ok(Some((child, newRemaining))) =>
          assert step.1.Approved? && step.1.child == child && store.Db() == step.0;
          L.RunKeepsChildren(store.Db(), meanwhile, child);
          assert forall c | c != child :: old(CoherentAt(c)) ==> CoherentAt(c);
          ServeAll(meanwhile);
          WriteApproved(Some((child, newRemaining)));
          return Ok(());
      }
    }
  }
}
