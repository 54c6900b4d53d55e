/** The agent and the server together: one unlocked interval from the counted minute to the lock. */
module Enforcement {
  import opened Prelude
  import L = Ledger
  import S = Server
  import P = PendingMinutes
  import PendingLog
  import M = MainLoop

  /** What becomes of a request: it does not arrive, it arrives but its answer does not, or all goes well. */
  datatype Delivery = Lost | AnswerLost | Answered

  /** What others do while the heartbeat is served: requests that commit after its charge and before its status is
    * read, and when that is. */
  datatype Meanwhile = Meanwhile(requests: seq<L.Request>, readAt: int)

  /** The tables when the answer is formed. */
  function TablesAfter(db: L.Db, child: ChildId, device: L.DeviceId, batch: seq<int>, delivery: Delivery, now: int,
                       others: Meanwhile): L.Db
  {
    var (charged, e) := L.Step(db, L.PostUsage(child, device, batch, now));
    if delivery.Lost? then db else if e.Charged? then L.RunFrom(charged, others.requests) else charged
  }

  predicate Accepted(db: L.Db, child: ChildId, device: L.DeviceId, batch: seq<int>, now: int) {
    L.Step(db, L.PostUsage(child, device, batch, now)).1.Charged?
  }

  lemma RowStays(db: L.Db, request: L.Request, row: L.UsageRow)
    requires row in db.usage
    ensures row in L.Step(db, request).0.usage
  {
  }

  lemma {:induction false} RowsStay(db: L.Db, requests: seq<L.Request>, row: L.UsageRow)
    requires row in db.usage
    ensures row in L.RunFrom(db, requests).usage
  {
    if requests != [] {
      var n := |requests| - 1;
      RowsStay(db, requests[..n], row);
      RowStays(L.RunFrom(db, requests[..n]), requests[n], row);
    }
  }

  /** Each minute of an accepted batch has its row from then on. */
  lemma AcceptedRows(db: L.Db, child: ChildId, device: L.DeviceId, batch: seq<int>, now: int, later: seq<L.Request>)
    requires Accepted(db, child, device, batch, now)
    ensures
      var charged := L.Step(db, L.PostUsage(child, device, batch, now)).0;
      forall m | m in batch :: L.UsageRow(child, m, device) in L.RunFrom(charged, later).usage
  {
    var charged := L.Step(db, L.PostUsage(child, device, batch, now)).0;
    forall m | m in batch ensures L.UsageRow(child, m, device) in L.RunFrom(charged, later).usage {
      RowsStay(charged, later, L.UsageRow(child, m, device));
    }
  }

  /** The answer gives the effective minutes of the child in these tables. */
  ghost predicate FromStatus(db: L.Db, child: ChildId, now: int, answer: M.Answer) {
    exists status :: S.IsStatus(db, child, now, status) && answer.remaining == status.effective
  }

  /** The request and its answer; the agent gets one only if the server took the batch and all went well. */
  method Exchange(server: S.AppState, child: ChildId, device: L.DeviceId, batch: seq<int>, delivery: Delivery, now: int,
                  others: Meanwhile)
    returns (answer: Option<M.Answer>)
    modifies server`childrenCache, server.store
    ensures server.store.Db() == TablesAfter(old(server.store.Db()), child, device, batch, delivery, now, others)
    ensures !delivery.Lost? && Accepted(old(server.store.Db()), child, device, batch, now) ==>
      forall m | m in batch :: L.UsageRow(child, m, device) in server.store.usage
    ensures answer.Some? <==> delivery.Answered? && Accepted(old(server.store.Db()), child, device, batch, now)
    ensures answer.Some? ==>
      FromStatus(server.store.Db(), child, others.readAt, answer.value)
  {
    answer := None;
    if !delivery.Lost? {
      if Accepted(server.store.Db(), child, device, batch, now) {
        AcceptedRows(server.store.Db(), child, device, batch, now, others.requests);
      }
      var status := server.ApiDeviceHeartbeat(child, device, batch, now, others.requests, others.readAt);
      if delivery.Answered? && status.Ok? {
        answer := Some(M.Answer(status.value.effective));
      }
    }
  }

  /** After a success the slot is occupied if and only if the child has nothing left; after a failure it is as it
    * was, or occupied when this was the fifth. */
  ghost predicate Enforced(t: M.Tick, db: L.Db, child: ChildId, now: int, was: bool, occupied: bool, failures: nat) {
    if M.Succeeds(t) then failures == 0 && child in db.balances && (occupied <==> S.NothingLeft(db, child, now))
    else occupied <==> was || failures == 0
  }

  /** The answer, if there is one, is the child's status in these tables. */
  ghost predicate FromTables(t: M.Tick, db: L.Db, child: ChildId, now: int) {
    t.answer.Some? ==> FromStatus(db, child, now, t.answer.value)
  }

  lemma SlotEnforces(was: bool, t: M.Tick, failuresBefore: nat, db: L.Db, child: ChildId, now: int)
    requires !t.locked && FromTables(t, db, child, now)
    ensures
      var failures := M.NextCount(t, failuresBefore);
      Enforced(t, db, child, now, was, M.SlotAfter(was, M.Beat(t), failures), failures)
  {
    if M.Succeeds(t) {
      S.OutOfTime(db, child, now);
    }
  }

  /** Count the minute, post the batch, let the server charge it, and enforce its answer, from any slot and any
    * cached value. If the server took the batch, the answer arrived and the batch could be marked as sent, the
    * slot is occupied if and only if the child has nothing left in the tables the answer was read from; otherwise
    * it is as before, or occupied when this was the fifth failure. */
  method HeartbeatInterval(agent: M.Agent, server: S.AppState, child: ChildId, device: L.DeviceId,
                           minute: int, insertOk: bool, delivery: Delivery, markOk: bool, now: int,
                           others: Meanwhile, failuresBefore: nat)
    returns (failures: nat, t: M.Tick)
    requires agent.Valid() && failuresBefore < 5 && PendingLog.IsI64(minute)
    modifies agent, agent.pending, agent.relocker, server`childrenCache, server.store
    ensures agent.Valid() && failures == M.NextCount(t, failuresBefore)
    ensures
      var db, batch := old(server.store.Db()), P.With(old(agent.pending.minutes), minute);
      && server.store.Db() == TablesAfter(db, child, device, batch, delivery, now, others)
      && (M.Succeeds(t) <==> delivery.Answered? && Accepted(db, child, device, batch, now) && markOk)
      && (M.Fails(t) <==> !M.Succeeds(t))
    ensures
      var counted := P.Inserted(old(agent.pending.View()), minute, insertOk);
      agent.pending.View() == if t.answer.None? then counted else P.Marked(counted, counted.mem, markOk)
    ensures Enforced(t, server.store.Db(), child, others.readAt,
                     old(agent.relocker.slot).Some?, agent.relocker.slot.Some?, failures)
  {
    var batch := agent.Collect(minute, insertOk);
    var answer := Exchange(server, child, device, batch, delivery, now, others);
    t := M.Tick(false, minute, insertOk, answer, markOk);
    SlotEnforces(agent.relocker.slot.Some?, t, failuresBefore, server.store.Db(), child, others.readAt);
    failures := agent.Conclude(t, failuresBefore);
  }
}
