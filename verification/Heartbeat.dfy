/** The heartbeat protocol: agents that remember unreported minutes across crashes, a network that loses,
  * delays and repeats, and a ledger that charges a (child, minute, device) row once.
  */
module Heartbeat {
  import opened Prelude
  import L = Ledger
  import History
  import Runs
  import opened PendingLog
  import opened PendingMinutes

  datatype Device = Device(child: ChildId, device: L.DeviceId)

  datatype Request = Request(from: Device, minutes: seq<int>)

  /** One agent. What it ever saved and ever counted are history, not state of the program. */
  datatype Agent = Agent(pending: Pending, outstanding: Option<nat>, everSaved: set<int>, everCounted: set<int>)

  /** All requests ever sent, and which of them the server has answered with success. */
  datatype State = State(db: L.Db, agents: map<Device, Agent>, requests: seq<Request>, accepted: set<nat>)

  datatype Action =
    | Count(from: Device, minute: int, saveOk: bool)
    | Send(from: Device, batch: seq<int>)
    | Deliver(id: nat, now: int)
    | Receive(from: Device, saveOk: bool)
    | GiveUp(from: Device)
    | Crash(from: Device)
    | Other(request: L.Request)

  function Update(a: Agent, pending: Pending): Agent {
    a.(pending := pending, everSaved := a.everSaved + pending.disk)
  }

  function Usage(r: Request, now: int): L.Request {
    L.PostUsage(r.from.child, r.from.device, r.minutes, now)
  }

  /** One step; a step that is not enabled does nothing. A request may be delivered late, and again. */
  function Step(s: State, action: Action): State {
    match action
    case Count(d, minute, saveOk) =>
      if d in s.agents && s.agents[d].outstanding.None? then
        var a := Update(s.agents[d], Inserted(s.agents[d].pending, minute, saveOk));
        s.(agents := s.agents[d := a.(everCounted := a.everCounted + {minute})])
      else s
    case Send(d, batch) =>
      if d in s.agents && s.agents[d].outstanding.None?
         && batch != [] && Elements(batch) == s.agents[d].pending.mem then
        s.(agents := s.agents[d := s.agents[d].(outstanding := Some(|s.requests|))],
           requests := s.requests + [Request(d, batch)])
      else s
    case Deliver(id, now) =>
      if id < |s.requests| then
        var (db, e) := L.Step(s.db, Usage(s.requests[id], now));
        s.(db := db, accepted := s.accepted + if e.Charged? then {id} else {})
      else s
    case Receive(d, saveOk) =>
      if d in s.agents && s.agents[d].outstanding.Some? && s.agents[d].outstanding.value in s.accepted
         && s.agents[d].outstanding.value < |s.requests| then
        var sent := Elements(s.requests[s.agents[d].outstanding.value].minutes);
        var marked := Update(s.agents[d], Marked(s.agents[d].pending, sent, saveOk));
        s.(agents := s.agents[d := marked.(outstanding := None)])
      else s
    case GiveUp(d) =>
      if d in s.agents then s.(agents := s.agents[d := s.agents[d].(outstanding := None)]) else s
    case Crash(d) =>
      if d in s.agents then
        var disk := s.agents[d].pending.disk;
        s.(agents := s.agents[d := s.agents[d].(pending := Pending(disk, disk), outstanding := None)])
      else s
    case Other(request) =>
      if request.PostUsage? && Device(request.child, request.device) in s.agents then s
      else s.(db := L.Step(s.db, request).0)
  }

  function Run(start: State, actions: seq<Action>): State {
    if actions == [] then start else Step(Run(start, actions[..|actions| - 1]), actions[|actions| - 1])
  }

  const NEW_AGENT := Agent(Pending({}, {}), None, {}, {})

  ghost predicate LedgerOk(db: L.Db) { forall c :: History.Accounted(db, c) }

  /** Any ledger the API can produce that has not heard of these devices yet. */
  ghost predicate Initial(s: State) {
    && s.requests == [] && s.accepted == {}
    && (forall d | d in s.agents :: s.agents[d] == NEW_AGENT && Rows(s.db, d) == {})
    && LedgerOk(s.db)
  }

  // ---- Exactly once --------------------------------------------------------------------------

  ghost function Rows(db: L.Db, d: Device): set<int> {
    set r | r in db.usage && r.child == d.child && r.device == d.device :: r.minute
  }

  ghost predicate AgentOk(s: State, d: Device)
    requires d in s.agents
  {
    var a := s.agents[d];
    && a.pending.disk <= a.pending.mem <= a.everCounted
    && a.everSaved <= a.pending.disk + Rows(s.db, d)
    && Rows(s.db, d) <= a.everCounted
    && (a.outstanding.Some? ==> a.outstanding.value < |s.requests| && s.requests[a.outstanding.value].from == d)
  }

  ghost predicate RequestOk(s: State, id: nat)
    requires id < |s.requests|
  {
    var r := s.requests[id];
    && r.from in s.agents
    && Elements(r.minutes) <= s.agents[r.from].everCounted
    && (id in s.accepted ==> Elements(r.minutes) <= Rows(s.db, r.from))
  }

  ghost predicate Inv(s: State) {
    && (forall d | d in s.agents :: AgentOk(s, d))
    && (forall id: nat | id < |s.requests| :: RequestOk(s, id))
    && (forall id | id in s.accepted :: id < |s.requests|)
  }

  lemma {:induction false} InElements(xs: seq<int>, v: int)
    ensures v in Elements(xs) <==> v in xs
  {
    if xs != [] {
      InElements(xs[..|xs| - 1], v);
      assert xs == xs[..|xs| - 1] + [xs[|xs| - 1]];
    }
  }

  /** Usage rows are never taken back; a device's rows grow by its own batches only. */
  lemma StepRows(db: L.Db, request: L.Request, d: Device)
    ensures
      var (after, e) := L.Step(db, request);
      && Rows(db, d) <= Rows(after, d)
      && (!(request.PostUsage? && Device(request.child, request.device) == d) ==> Rows(after, d) == Rows(db, d))
      && (request.PostUsage? && Device(request.child, request.device) == d ==>
            Rows(after, d) == Rows(db, d) + if e.Charged? then Elements(request.batch) else {})
  {
    Runs.StepLogs(db, request);
    var (after, e) := L.Step(db, request);
    if request.PostUsage? && e.Charged? {
      forall m ensures m in Elements(request.batch) <==> m in request.batch {
        InElements(request.batch, m);
      }
      forall m ensures m in Rows(after, d) <==>
        m in Rows(db, d) || (Device(request.child, request.device) == d && m in Elements(request.batch))
      {
        var row := L.UsageRow(d.child, m, d.device);
        assert m in Rows(after, d) <==> row in after.usage;
        assert m in Rows(db, d) <==> row in db.usage;
      }
    }
  }

  lemma DeliverOk(s: State, id: nat, now: int)
    requires Inv(s) && id < |s.requests|
    ensures Inv(Step(s, Deliver(id, now)))
  {
    var after := Step(s, Deliver(id, now));
    var request := Usage(s.requests[id], now);
    assert RequestOk(s, id);
    forall d | d in s.agents ensures AgentOk(after, d) {
      assert AgentOk(s, d);
      StepRows(s.db, request, d);
    }
    forall i: nat | i < |s.requests| ensures RequestOk(after, i) {
      assert RequestOk(s, i);
      StepRows(s.db, request, s.requests[i].from);
    }
  }

  lemma OtherOk(s: State, request: L.Request)
    requires Inv(s)
    ensures Inv(Step(s, Other(request)))
  {
    var after := Step(s, Other(request));
    forall d | d in s.agents ensures AgentOk(after, d) {
      assert AgentOk(s, d);
      StepRows(s.db, request, d);
    }
    forall i: nat | i < |s.requests| ensures RequestOk(after, i) {
      assert RequestOk(s, i);
      StepRows(s.db, request, s.requests[i].from);
    }
  }

  /** Requests and acceptances aside, one agent changes and counts no less than before. */
  lemma AgentChangeOk(s: State, after: State, d: Device)
    requires Inv(s) && d in s.agents && after.agents.Keys == s.agents.Keys
    requires after == s.(agents := after.agents)
    requires forall k | k in s.agents && k != d :: after.agents[k] == s.agents[k]
    requires s.agents[d].everCounted <= after.agents[d].everCounted && AgentOk(after, d)
    ensures Inv(after)
  {
    forall k | k in after.agents ensures AgentOk(after, k) {
      assert AgentOk(s, k);
    }
    forall i: nat | i < |after.requests| ensures RequestOk(after, i) {
      assert RequestOk(s, i);
    }
  }

  lemma SendOk(s: State, d: Device, batch: seq<int>)
    requires Inv(s)
    ensures Inv(Step(s, Send(d, batch)))
  {
    var after := Step(s, Send(d, batch));
    forall k | k in after.agents ensures AgentOk(after, k) {
      assert AgentOk(s, k);
    }
    forall i: nat | i < |after.requests| ensures RequestOk(after, i) {
      if i < |s.requests| {
        assert RequestOk(s, i);
      } else {
        assert AgentOk(s, d);
      }
    }
  }

  lemma ReceiveOk(s: State, d: Device, saveOk: bool)
    requires Inv(s)
    ensures Inv(Step(s, Receive(d, saveOk)))
  {
    var after := Step(s, Receive(d, saveOk));
    if after != s {
      assert AgentOk(s, d) && RequestOk(s, s.agents[d].outstanding.value);
      AgentChangeOk(s, after, d);
    }
  }

  /** The steps an agent takes on its own. */
  lemma AgentStepOk(s: State, action: Action)
    requires Inv(s) && !action.Deliver? && !action.Other?
    ensures Inv(Step(s, action))
  {
    var d := action.from;
    if action.Send? {
      SendOk(s, d, action.batch);
    } else if action.Receive? {
      ReceiveOk(s, d, action.saveOk);
    } else if d in s.agents {
      assert AgentOk(s, d);
      OwnChangeOk(s, d, action);
    }
  }

  lemma OwnChangeOk(s: State, d: Device, action: Action)
    requires Inv(s) && d in s.agents && AgentOk(s, d)
    requires action == GiveUp(d) || action == Crash(d) || (action.Count? && action.from == d)
    ensures Inv(Step(s, action))
  {
    AgentChangeOk(s, Step(s, action), d);
  }

  lemma StepInv(s: State, action: Action)
    requires Inv(s)
    ensures Inv(Step(s, action))
  {
    match action
    case Deliver(id, now) =>
      if id < |s.requests| {
        DeliverOk(s, id, now);
      }
    case Other(request) => OtherOk(s, request);
    case _ => AgentStepOk(s, action);
  }

  lemma StepLedger(s: State, action: Action)
    requires LedgerOk(s.db)
    ensures LedgerOk(Step(s, action).db)
  {
    match action
    case Deliver(id, now) =>
      if id < |s.requests| {
        History.StepAccounts(s.db, Usage(s.requests[id], now));
      }
    case Other(request) => History.StepAccounts(s.db, request);
    case _ =>
  }

  lemma {:induction false} RunLedger(start: State, actions: seq<Action>)
    requires LedgerOk(start.db)
    ensures LedgerOk(Run(start, actions).db)
  {
    if actions != [] {
      var n := |actions| - 1;
      RunLedger(start, actions[..n]);
      StepLedger(Run(start, actions[..n]), actions[n]);
    }
  }

  lemma {:induction false} RunInv(start: State, actions: seq<Action>)
    requires Initial(start)
    ensures Inv(Run(start, actions))
    ensures Run(start, actions).agents.Keys == start.agents.Keys
  {
    if actions != [] {
      var n := |actions| - 1;
      RunInv(start, actions[..n]);
      StepInv(Run(start, actions[..n]), actions[n]);
      StepKeys(Run(start, actions[..n]), actions[n]);
    }
  }

  lemma StepKeys(s: State, action: Action)
    ensures Step(s, action).agents.Keys == s.agents.Keys
  {
  }

  /** In every run, over any number of devices, with requests and answers lost, late or repeated, saves that
    * fail and agents that crash and reload: what a reload would find is in memory; a minute that was ever
    * saved is still saved or is a server row; a device's rows are minutes it counted; and each child's
    * minutes have gone down by its number of rows. */
  lemma {:induction false} ExactlyOnce(start: State, actions: seq<Action>, d: Device)
    requires Initial(start) && d in start.agents
    ensures
      var s := Run(start, actions);
      && d in s.agents
      && s.agents[d].pending.disk <= s.agents[d].pending.mem
      && s.agents[d].everSaved <= s.agents[d].pending.disk + Rows(s.db, d)
      && Rows(s.db, d) <= s.agents[d].everCounted
      && (d.child in s.db.balances ==>
            s.db.balances[d.child].remaining + s.db.balances[d.child].account
            == History.Earned(s.db.rewards, d.child) - |History.UsageOf(s.db.usage, d.child)|)
  {
    RunInv(start, actions);
    RunLedger(start, actions);
    assert AgentOk(Run(start, actions), d);
    assert History.Accounted(Run(start, actions).db, d.child);
  }

  // ---- What a crash can cost -----------------------------------------------------------------

  /** Every minute this device counted is in memory or charged. */
  ghost predicate AllThere(s: State, d: Device) {
    d in s.agents && s.agents[d].everCounted <= s.agents[d].pending.mem + Rows(s.db, d)
  }

  lemma StepAllThere(s: State, d: Device, action: Action)
    requires Inv(s) && AllThere(s, d) && action != Crash(d)
    ensures AllThere(Step(s, action), d)
  {
    match action
    case Deliver(id, now) =>
      if id < |s.requests| {
        StepRows(s.db, Usage(s.requests[id], now), d);
      }
    case Other(request) => StepRows(s.db, request, d);
    case Receive(from, saveOk) =>
      if from == d && s.agents[d].outstanding.Some? {
        assert AgentOk(s, d) && RequestOk(s, s.agents[d].outstanding.value);
      }
    case _ =>
  }

  /** As long as the agent does not crash, every minute it counted is in memory or charged, whatever the network and
    * the disk do. */
  lemma {:induction false} OnlyCrashesLose(start: State, actions: seq<Action>, d: Device)
    requires Initial(start) && d in start.agents
    ensures (forall i | 0 <= i < |actions| :: actions[i] != Crash(d)) ==> AllThere(Run(start, actions), d)
  {
    RunInv(start, actions);
    if actions != [] {
      var n := |actions| - 1;
      OnlyCrashesLose(start, actions[..n], d);
      RunInv(start, actions[..n]);
      if forall i | 0 <= i < |actions| :: actions[i] != Crash(d) {
        assert forall i | 0 <= i < n :: actions[..n][i] == actions[i];
        StepAllThere(Run(start, actions[..n]), d, actions[n]);
      }
    }
  }

  /** A crash keeps what is saved, and that is all it keeps. */
  lemma CrashKeepsSaved(s: State, d: Device)
    requires d in s.agents
    ensures
      var after, disk := Step(s, Crash(d)), s.agents[d].pending.disk;
      && after.agents.Keys == s.agents.Keys && after.db == s.db
      && after.agents[d].pending == Pending(disk, disk) && after.agents[d].outstanding.None?
  {
  }

  // ---- What an answer acknowledges -------------------------------------------------------------

  /** The request the agent waits for holds exactly what is pending. */
  ghost predicate WaitsForAll(s: State, d: Device) {
    d in s.agents && (s.agents[d].outstanding.Some? ==>
      && s.agents[d].outstanding.value < |s.requests| && s.agents[d].pending.mem != {}
      && Elements(s.requests[s.agents[d].outstanding.value].minutes) == s.agents[d].pending.mem)
  }

  lemma StepWaitsForAll(s: State, d: Device, action: Action)
    requires WaitsForAll(s, d)
    ensures WaitsForAll(Step(s, action), d)
  {
    if action.Send? && action.from == d && action.batch != [] {
      InElements(action.batch, action.batch[0]);
    }
  }

  /** In every run: while the agent waits for an answer its memory is what it sent, so a success whose save goes
    * well empties memory and disk; after one whose save fails, both are as they were. */
  lemma {:induction false} AnswerAcknowledgesAll(start: State, actions: seq<Action>, d: Device, saveOk: bool)
    requires Initial(start) && d in start.agents
    ensures
      var s := Run(start, actions);
      && WaitsForAll(s, d)
      && (s.agents[d].outstanding.Some? && s.agents[d].outstanding.value in s.accepted ==>
            var after := Step(s, Receive(d, saveOk));
            && d in after.agents && after.agents[d].outstanding.None?
            && after.agents[d].pending == if saveOk then Pending({}, {}) else s.agents[d].pending)
  {
    if actions != [] {
      var n := |actions| - 1;
      AnswerAcknowledgesAll(start, actions[..n], d, saveOk);
      StepWaitsForAll(Run(start, actions[..n]), d, actions[n]);
    }
    ReceivedAll(Run(start, actions), d, saveOk);
  }

  lemma ReceivedAll(s: State, d: Device, saveOk: bool)
    requires WaitsForAll(s, d)
    ensures
      var after := Step(s, Receive(d, saveOk));
      if s.agents[d].outstanding.Some? && s.agents[d].outstanding.value in s.accepted then
        && d in after.agents && after.agents[d].outstanding.None? && after.db == s.db
        && after.agents[d].pending == if saveOk then Pending({}, {}) else s.agents[d].pending
      else after == s
  {
    if s.agents[d].outstanding.Some? {
      AllMarked(s.agents[d].pending);
    }
  }

  lemma AllMarked(p: Pending)
    requires p.mem != {}
    ensures Marked(p, p.mem, true) == Pending({}, {})
    ensures Marked(p, p.mem, false) == p
  {
    assert p.mem - p.mem == {} && p.mem + p.mem == p.mem;
    assert p.mem * p.mem == p.mem;
  }

  /** Counting between requests puts the minute in memory, and on disk too if it is new and the save succeeds. */
  lemma CountTakesEffect(s: State, d: Device, minute: int, saveOk: bool)
    requires d in s.agents && s.agents[d].outstanding.None?
    ensures
      var after := Step(s, Count(d, minute, saveOk)).agents[d].pending;
      && after.mem == s.agents[d].pending.mem + {minute}
      && after.disk == if saveOk && minute !in s.agents[d].pending.mem then after.mem else s.agents[d].pending.disk
  {
    assert minute in s.agents[d].pending.mem ==> s.agents[d].pending.mem + {minute} == s.agents[d].pending.mem;
  }

  // ---- When a batch gets through -------------------------------------------------------------

  /** The child is known and every minute lies in the window. */
  ghost predicate Acceptable(db: L.Db, child: ChildId, minutes: set<int>, now: int) {
    child in db.balances && forall m | m in minutes :: L.InWindow(m, now)
  }

  /** A delivered batch is charged whole or not at all: whole if and only if it is not empty, every minute
    * lies in the window and the child is known. */
  lemma DeliveryIffInWindow(s: State, id: nat, now: int)
    requires id < |s.requests| && id !in s.accepted
    ensures
      var r := s.requests[id];
      var after := Step(s, Deliver(id, now));
      && (id in after.accepted <==>
            r.minutes != [] && Acceptable(s.db, r.from.child, Elements(r.minutes), now))
      && Rows(after.db, r.from) == Rows(s.db, r.from) + (if id in after.accepted then Elements(r.minutes) else {})
      && (id !in after.accepted ==> after == s)
  {
    var r := s.requests[id];
    StepRows(s.db, Usage(r, now), r.from);
    forall m ensures m in Elements(r.minutes) <==> m in r.minutes {
      InElements(r.minutes, m);
    }
    assert s.accepted + {} == s.accepted;
  }

  lemma {:induction false} SendAndDeliver(s: State, d: Device, batch: seq<int>, now: int)
    requires Inv(s) && d in s.agents && s.agents[d].outstanding.None?
    requires batch != [] && Elements(batch) == s.agents[d].pending.mem
    ensures
      var s2 := Step(Step(s, Send(d, batch)), Deliver(|s.requests|, now));
      && s2.agents == s.agents[d := s.agents[d].(outstanding := Some(|s.requests|))]
      && s2.requests == s.requests + [Request(d, batch)]
      && (|s.requests| in s2.accepted <==> Acceptable(s.db, d.child, s.agents[d].pending.mem, now))
      && Rows(s2.db, d) == Rows(s.db, d) + (if |s.requests| in s2.accepted then s.agents[d].pending.mem else {})
      && (|s.requests| !in s2.accepted ==> s2.db == s.db)
  {
    var s1 := Step(s, Send(d, batch));
    assert s1.requests[|s.requests|] == Request(d, batch);
    DeliveryIffInWindow(s1, |s.requests|, now);
  }

  /** Whatever request was still out, the agent gives it up, and an exchange that is then undisturbed empties the
    * pending set, in memory and on disk, into rows if and only if the child is known and every pending minute lies
    * in the window. Otherwise tables and pending set stay as they are. */
  lemma {:induction false} ExchangeDelivers(s: State, d: Device, batch: seq<int>, now: int)
    requires Inv(s) && d in s.agents
    requires batch != [] && Elements(batch) == s.agents[d].pending.mem
    ensures
      var s2 := Step(Step(Step(s, GiveUp(d)), Send(d, batch)), Deliver(|s.requests|, now));
      var s3 := Step(s2, Receive(d, true));
      && d in s3.agents
      && if Acceptable(s.db, d.child, s.agents[d].pending.mem, now) then
           && s3.agents[d].pending == Pending({}, {}) && s3.agents[d].outstanding == None
           && Rows(s3.db, d) == Rows(s.db, d) + s.agents[d].pending.mem
         else
           s3.agents[d].pending == s.agents[d].pending && s3.db == s.db
  {
    var s0 := Step(s, GiveUp(d));
    StepInv(s, GiveUp(d));
    SendAndDeliver(s0, d, batch, now);
    InElements(batch, batch[0]);
    ReceivedAll(Step(Step(s0, Send(d, batch)), Deliver(|s.requests|, now)), d, true);
  }

  /** A minute saved at the epoch is too old eight days later. */
  lemma {:induction false} EightDaysOffline(start: State, d: Device)
    requires Initial(start) && d in start.agents
    ensures
      var s := Run(start, [Count(d, 0, true)]);
      && d in s.agents && s.agents[d].outstanding.None? && s.agents[d].pending == Pending({0}, {0})
      && 0 < L.NowMinute(8 * 86400) - L.MINUTES_PAST
  {
    assert [Count(d, 0, true)][..0] == [];
    assert Run(start, [Count(d, 0, true)]) == Step(start, Count(d, 0, true));
    assert {} + {0} == {0};
  }

  /** This saved minute is too old for the server's window at time t, and nothing with it is accepted or awaited. */
  ghost predicate Stuck(s: State, d: Device, minute: int, since: nat, t: int) {
    && d in s.agents && minute in s.agents[d].pending.disk && minute in s.agents[d].pending.mem
    && minute < L.NowMinute(t) - L.MINUTES_PAST
    && since <= |s.requests|
    && (forall id: nat | since <= id < |s.requests| && s.requests[id].from == d ::
          minute in Elements(s.requests[id].minutes) && id !in s.accepted)
    && (s.agents[d].outstanding.Some? ==>
          since <= s.agents[d].outstanding.value < |s.requests| && s.requests[s.agents[d].outstanding.value].from == d)
  }

  lemma LaterMinute(t: int, now: int)
    requires t <= now
    ensures L.NowMinute(t) <= L.NowMinute(now)
  {
  }

  lemma DeliverStuck(s: State, d: Device, minute: int, since: nat, t: int, id: nat, now: int)
    requires Stuck(s, d, minute, since, t) && t <= now
    ensures Stuck(Step(s, Deliver(id, now)), d, minute, since, t)
    ensures Step(s, Deliver(id, now)).agents == s.agents
  {
    if since <= id < |s.requests| && s.requests[id].from == d {
      LaterMinute(t, now);
      InElements(s.requests[id].minutes, minute);
      assert !L.InWindow(minute, now);
    }
  }

  lemma ReceiveStuck(s: State, d: Device, minute: int, since: nat, t: int, from: Device, saveOk: bool)
    requires Stuck(s, d, minute, since, t)
    ensures Stuck(Step(s, Receive(from, saveOk)), d, minute, since, t)
    ensures Step(s, Receive(from, saveOk)).agents[d] == s.agents[d]
  {
    if from == d && s.agents[d].outstanding.Some? {
      assert s.agents[d].outstanding.value !in s.accepted;
    }
  }

  lemma SendStuck(s: State, d: Device, minute: int, since: nat, t: int, from: Device, batch: seq<int>)
    requires Stuck(s, d, minute, since, t) && |s.requests| !in s.accepted
    ensures Stuck(Step(s, Send(from, batch)), d, minute, since, t)
    ensures Step(s, Send(from, batch)).agents[d].pending == s.agents[d].pending
  {
    assert from == d && Elements(batch) == s.agents[d].pending.mem ==> minute in Elements(batch);
  }

  /** What is pending on the blocked device never shrinks, except that a crash reloads what was saved. */
  lemma StepStuck(s: State, d: Device, minute: int, since: nat, t: int, action: Action)
    requires Inv(s) && Stuck(s, d, minute, since, t)
    requires action.Deliver? ==> t <= action.now
    ensures Stuck(Step(s, action), d, minute, since, t)
    ensures s.agents[d].pending.mem <= Step(s, action).agents[d].pending.mem || action == Crash(d)
  {
    match action
    case Deliver(id, now) => DeliverStuck(s, d, minute, since, t, id, now);
    case Receive(from, saveOk) => ReceiveStuck(s, d, minute, since, t, from, saveOk);
    case Send(from, batch) => SendStuck(s, d, minute, since, t, from, batch);
    case _ =>
  }

  /** One saved minute that has fallen out of the seven-day window blocks its device for good: the server
    * refuses every later batch, so nothing pending is ever marked as sent again. */
  lemma {:induction false} StaleMinuteBlocks(start: State, before: seq<Action>, d: Device, minute: int, t: int,
                                             later: seq<Action>)
    requires Initial(start) && d in start.agents
    requires
      var s := Run(start, before);
      && d in s.agents && s.agents[d].outstanding.None?
      && minute in s.agents[d].pending.disk && minute < L.NowMinute(t) - L.MINUTES_PAST
    requires forall i | 0 <= i < |later| :: later[i].Deliver? ==> t <= later[i].now
    ensures Stuck(Run(Run(start, before), later), d, minute, |Run(start, before).requests|, t)
    ensures Inv(Run(Run(start, before), later))
  {
    RunInv(start, before);
    var s := Run(start, before);
    if later == [] {
      assert AgentOk(s, d);
    } else {
      var n := |later| - 1;
      StaleMinuteBlocks(start, before, d, minute, t, later[..n]);
      StepStuck(Run(s, later[..n]), d, minute, |s.requests|, t, later[n]);
      StepInv(Run(s, later[..n]), later[n]);
    }
  }
}
