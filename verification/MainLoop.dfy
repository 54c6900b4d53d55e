/** The agent's main loop: count the minute, report what is pending, and enforce the answer. */
module MainLoop {
  import opened Prelude
  import P = PendingMinutes
  import PendingLog
  import R = Relocker
  import S = Server
  import L = Ledger

  /** What the server answered: the effective minutes left. */
  datatype Answer = Answer(remaining: int)

  /** What the world does in one interval: the session's lock state, the minute on the clock, whether the two
    * saves succeed, and the server's answer, None when the request fails in any way. */
  datatype Tick = Tick(locked: bool, minute: int, insertOk: bool, answer: Option<Answer>, markOk: bool)

  /** What the loop asks of the countdown task and the re-locker, in order. */
  datatype Call = Count(minutes: int) | CancelCountdown | Disable | Enable(remaining: Option<int>)

  /** The fuse: where a count of failures stands on the way to the next fifth one. */
  function OnFuse(failures: nat): nat { failures % 5 }

  lemma FuseBurns(failures: nat)
    ensures OnFuse(failures + 1) == OnFuse(OnFuse(failures) + 1)
    ensures failures == 0 ==> OnFuse(failures) == 0
  {
    var fives := failures / 5;
    assert failures == 5 * fives + failures % 5;
    assert failures % 5 < 4 ==> failures + 1 == 5 * fives + (failures % 5 + 1);
  }

  // ---- What the loop should do ----------------------------------------------------------------

  /** An unlocked interval whose heartbeat was answered and whose batch could be marked as sent. */
  predicate Succeeds(t: Tick) { !t.locked && t.answer.Some? && t.markOk }

  predicate Fails(t: Tick) { !t.locked && !Succeeds(t) }

  /** The two writers of the re-lock slot: the loop's intervals, and updates of the remaining minutes that the
    * server sends over SSE. An interval writes the slot once, at its end, so an update that arrives during one
    * comes before it here. */
  datatype Event = Beat(tick: Tick) | ServerSays(remaining: int)

  predicate IsSuccess(e: Event) { e.Beat? && Succeeds(e.tick) }

  predicate IsFailure(e: Event) { e.Beat? && Fails(e.tick) }

  /** Failed sends since the last success; locked intervals and server events count for nothing. */
  function FailuresSinceSuccess(events: seq<Event>): nat {
    if events == [] then 0
    else
      var before := FailuresSinceSuccess(events[..|events| - 1]);
      match events[|events| - 1]
      case ServerSays(_) => before
      case Beat(t) => if Succeeds(t) then 0 else before + if Fails(t) then 1 else 0
  }

  /** Event i is a failed send with no success after it. */
  ghost predicate OpenAt(events: seq<Event>, i: nat)
    requires i < |events|
  {
    IsFailure(events[i]) && forall j | i < j < |events| :: !IsSuccess(events[j])
  }

  ghost function OpenFailures(events: seq<Event>): set<nat> {
    set i: nat | i < |events| && OpenAt(events, i)
  }

  lemma OpenAtSnoc(events: seq<Event>, e: Event, i: nat)
    requires i < |events|
    ensures OpenAt(events + [e], i) <==> OpenAt(events, i) && !IsSuccess(e)
  {
    var more := events + [e];
    assert more[i] == events[i] && more[|events|] == e;
    assert forall j | i < j < |events| :: more[j] == events[j];
  }

  lemma OpenFailuresSnoc(events: seq<Event>, e: Event)
    ensures OpenFailures(events + [e])
         == if IsSuccess(e) then {} else OpenFailures(events) + if IsFailure(e) then {|events|} else {}
  {
    var more := events + [e];
    forall i: nat | i < |events| ensures OpenAt(more, i) <==> OpenAt(events, i) && !IsSuccess(e) {
      OpenAtSnoc(events, e, i);
    }
    assert more[|events|] == e;
    assert OpenAt(more, |events|) <==> IsFailure(e);
    forall i: nat
      ensures i in OpenFailures(more) <==>
        !IsSuccess(e) && (i in OpenFailures(events) || (IsFailure(e) && i == |events|))
    {
    }
  }

  /** The count is the number of failed sends that no success followed. */
  lemma {:induction false} FailuresAreCounted(events: seq<Event>)
    ensures FailuresSinceSuccess(events) == |OpenFailures(events)|
  {
    if events != [] {
      var n := |events| - 1;
      FailuresAreCounted(events[..n]);
      assert events == events[..n] + [events[n]];
      OpenFailuresSnoc(events[..n], events[n]);
    }
  }

  /** The loop's counter after an interval. */
  function NextCount(t: Tick, count: nat): nat {
    if t.locked then count else if Succeeds(t) then 0 else OnFuse(count + 1)
  }

  function CountAfter(e: Event, count: nat): nat {
    match e
    case ServerSays(_) => count
    case Beat(t) => NextCount(t, count)
  }

  /** The calls an interval makes when the counter ends at this value. */
  function CallsOf(t: Tick, count: nat): seq<Call> {
    if t.locked then [CancelCountdown]
    else if Succeeds(t) then
      var remaining := t.answer.value.remaining;
      if remaining >= 1 then [Count(remaining), Disable] else [CancelCountdown, Enable(Some(remaining))]
    else if count == 0 then [Enable(None)]
    else []
  }

  function CallsAt(e: Event, count: nat): seq<Call> {
    match e
    case ServerSays(_) => []
    case Beat(t) => CallsOf(t, count)
  }

  /** The loop's own calls. */
  function Calls(events: seq<Event>): seq<Call> {
    if events == [] then []
    else
      Calls(events[..|events| - 1]) + CallsAt(events[|events| - 1], OnFuse(FailuresSinceSuccess(events)))
  }

  /** Whether the slot is occupied after an event, from whether it was, with the counter at this value. */
  function SlotAfter(was: bool, e: Event, count: nat): bool {
    match e
    case ServerSays(remaining) => remaining <= 0
    case Beat(t) =>
      if Succeeds(t) then t.answer.value.remaining <= 0
      else if Fails(t) && count == 0 then true
      else was
  }

  function Occupied(was: bool, events: seq<Event>): bool {
    if events == [] then was
    else
      SlotAfter(Occupied(was, events[..|events| - 1]), events[|events| - 1], OnFuse(FailuresSinceSuccess(events)))
  }

  lemma EventSnoc(was: bool, events: seq<Event>, e: Event)
    ensures FailuresSinceSuccess(events + [e])
         == match e
            case ServerSays(_) => FailuresSinceSuccess(events)
            case Beat(t) => if Succeeds(t) then 0 else FailuresSinceSuccess(events) + if Fails(t) then 1 else 0
    ensures Occupied(was, events + [e])
         == SlotAfter(Occupied(was, events), e, OnFuse(FailuresSinceSuccess(events + [e])))
    ensures Calls(events + [e]) == Calls(events) + CallsAt(e, OnFuse(FailuresSinceSuccess(events + [e])))
  {
    assert (events + [e])[..|events|] == events;
  }

  /** The counter is the number of failed sends since the last success, modulo five. */
  lemma CountIsFailures(events: seq<Event>, e: Event)
    ensures CountAfter(e, OnFuse(FailuresSinceSuccess(events))) == OnFuse(FailuresSinceSuccess(events + [e]))
  {
    EventSnoc(false, events, e);
    FuseBurns(FailuresSinceSuccess(events));
    FuseBurns(0);
  }

  // ---- When the re-lock task runs --------------------------------------------------------------

  /** This event turns the re-lock task on: no minutes left, or a fifth failed send. */
  predicate Enabling(events: seq<Event>, i: nat)
    requires i < |events|
  {
    match events[i]
    case ServerSays(remaining) => remaining <= 0
    case Beat(t) =>
      || (Succeeds(t) && t.answer.value.remaining <= 0)
      || (Fails(t) && OnFuse(FailuresSinceSuccess(events[..i + 1])) == 0)
  }

  predicate ServerHasMinutes(e: Event) { e.ServerSays? && e.remaining > 0 }

  /** This event turns it off: minutes left, from the server's update or the heartbeat's answer. */
  predicate Disabling(e: Event) {
    ServerHasMinutes(e) || (e.Beat? && Succeeds(e.tick) && e.tick.answer.value.remaining > 0)
  }

  ghost predicate NoDisablingFrom(events: seq<Event>, i: nat) {
    forall j | i <= j < |events| :: !Disabling(events[j])
  }

  ghost predicate EnabledLast(events: seq<Event>) {
    exists i :: 0 <= i < |events| && Enabling(events, i) && NoDisablingFrom(events, i + 1)
  }

  lemma EnabledLastSnoc(events: seq<Event>, e: Event)
    ensures EnabledLast(events + [e]) <==> Enabling(events + [e], |events|) || (EnabledLast(events) && !Disabling(e))
  {
    var more, n := events + [e], |events|;
    forall i | 0 <= i < n ensures Enabling(more, i) <==> Enabling(events, i) {
      assert more[..i + 1] == events[..i + 1];
    }
    if Enabling(more, n) {
      assert NoDisablingFrom(more, n + 1);
    }
    if EnabledLast(events) && !Disabling(e) {
      var i :| 0 <= i < n && Enabling(events, i) && NoDisablingFrom(events, i + 1);
      assert Enabling(more, i) && NoDisablingFrom(more, i + 1);
    }
    if EnabledLast(more) && !Enabling(more, n) {
      var i :| 0 <= i < |more| && Enabling(more, i) && NoDisablingFrom(more, i + 1);
      assert Enabling(events, i) && more[n] == e;
      assert forall j | i + 1 <= j < n :: events[j] == more[j];
      assert NoDisablingFrom(events, i + 1);
    }
  }

  /** In every interleaving of intervals and server events, from either state of the slot: it is occupied if and
    * only if some event turned the re-lock task on and none since turned it off, or it was occupied to begin with
    * and nothing ever turned it off. */
  lemma {:induction false} OccupiedExactly(was: bool, events: seq<Event>)
    ensures Occupied(was, events) <==> EnabledLast(events) || (was && NoDisablingFrom(events, 0))
  {
    if events != [] {
      var n := |events| - 1;
      var front, e := events[..n], events[n];
      OccupiedExactly(was, front);
      EnabledLastSnoc(front, e);
      assert events == front + [e];
      assert events[..n + 1] == events;
      assert NoDisablingFrom(events, 0) <==> NoDisablingFrom(front, 0) && !Disabling(e);
    }
  }

  // ---- Enforcement and failsafe ------------------------------------------------------------------

  /** From the server's tables to the lock: when the answer just handled is the status of the child in those
    * tables, the slot is occupied exactly when nothing is left in them, whatever came before. */
  lemma {:induction false} EnforcesTheLedger(was: bool, events: seq<Event>, t: Tick, db: L.Db, child: ChildId, now: int)
    requires Succeeds(t) && child in db.balances
    requires exists status :: S.IsStatus(db, child, now, status) && t.answer.value.remaining == status.effective
    ensures Occupied(was, events + [Beat(t)]) <==> S.NothingLeft(db, child, now)
  {
    EventSnoc(was, events, Beat(t));
  }

  /** The latest fifth failure of the current row of failures, with no success since. */
  lemma {:induction false} LatestFuse(events: seq<Event>) returns (i: nat)
    requires FailuresSinceSuccess(events) >= 5
    ensures i < |events| && Enabling(events, i)
    ensures forall j | i < j < |events| :: !IsSuccess(events[j])
  {
    var n := |events| - 1;
    assert events[..n + 1] == events;
    if IsFailure(events[n]) && OnFuse(FailuresSinceSuccess(events)) == 0 {
      i := n;
    } else {
      FiveIsAFuse(FailuresSinceSuccess(events));
      i := LatestFuse(events[..n]);
      assert events[..n][..i + 1] == events[..i + 1];
    }
  }

  lemma FiveIsAFuse(failures: nat)
    ensures failures == 5 ==> OnFuse(failures) == 0
  {
  }

  /** With five or more failed sends since the last success, the re-lock task runs if and only if since some event
    * that turned it on no server event with minutes left has come. Without such server events it always runs. */
  lemma {:induction false} FailsafeHolds(was: bool, events: seq<Event>)
    requires FailuresSinceSuccess(events) >= 5
    ensures Occupied(was, events) <==>
      exists i :: 0 <= i < |events| && Enabling(events, i)
                  && forall j | i < j < |events| :: !ServerHasMinutes(events[j])
    ensures (forall j | 0 <= j < |events| :: !ServerHasMinutes(events[j])) ==> Occupied(was, events)
  {
    OccupiedExactly(was, events);
    var fuse := LatestFuse(events);
    if i :| 0 <= i < |events| && Enabling(events, i) && forall j | i < j < |events| :: !ServerHasMinutes(events[j]) {
      var last := if i < fuse then fuse else i;
      assert Enabling(events, last) && NoDisablingFrom(events, last + 1);
    }
    if was && NoDisablingFrom(events, 0) {
      assert Enabling(events, fuse) && NoDisablingFrom(events, fuse + 1);
    }
    if EnabledLast(events) {
      var i :| 0 <= i < |events| && Enabling(events, i) && NoDisablingFrom(events, i + 1);
      assert forall j | i < j < |events| :: !ServerHasMinutes(events[j]);
    }
  }

  function Failing(t: Tick, times: nat): seq<Event> {
    if times == 0 then [] else Failing(t, times - 1) + [Beat(t)]
  }

  lemma {:induction false} FailingCounts(t: Tick, times: nat)
    requires Fails(t)
    ensures FailuresSinceSuccess(Failing(t, times)) == times
  {
    if times > 0 {
      FailingCounts(t, times - 1);
      EventSnoc(false, Failing(t, times - 1), Beat(t));
    }
  }

  /** Five failed sends turn the re-lock task on, and one server event with minutes left turns it off although no
    * send has succeeded. */
  lemma {:induction false} ServerEventEndsFailsafe(was: bool, t: Tick, remaining: int)
    requires Fails(t) && remaining > 0
    ensures
      var failed := Failing(t, 5);
      var events := failed + [ServerSays(remaining)];
      && Occupied(was, failed) && FailuresSinceSuccess(events) == 5 && !Occupied(was, events)
  {
    FailingCounts(t, 5);
    EventSnoc(was, Failing(t, 4), Beat(t));
    FiveIsAFuse(5);
    EventSnoc(was, Failing(t, 5), ServerSays(remaining));
  }

  // ---- What the calls come to ----------------------------------------------------------------

  /** The slot after these calls of the loop alone. */
  function SlotByCalls(was: bool, calls: seq<Call>): bool {
    if calls == [] then was
    else
      match calls[|calls| - 1]
      case Enable(_) => true
      case Disable => false
      case _ => SlotByCalls(was, calls[..|calls| - 1])
  }

  /** The minutes the countdown was last given, None when it was cancelled since. */
  function CountdownByCalls(was: Option<int>, calls: seq<Call>): Option<int> {
    if calls == [] then was
    else
      match calls[|calls| - 1]
      case Count(minutes) => Some(minutes)
      case CancelCountdown => None
      case _ => CountdownByCalls(was, calls[..|calls| - 1])
  }

  lemma {:induction false} CallsAppend(slot: bool, countdown: Option<int>, a: seq<Call>, b: seq<Call>)
    ensures SlotByCalls(slot, a + b) == SlotByCalls(SlotByCalls(slot, a), b)
    ensures CountdownByCalls(countdown, a + b) == CountdownByCalls(CountdownByCalls(countdown, a), b)
  {
    if b == [] {
      assert a + b == a;
    } else {
      var n := |b| - 1;
      assert (a + b)[..|a| + n] == a + b[..n];
      CallsAppend(slot, countdown, a, b[..n]);
    }
  }

  lemma TickCalls(slot: bool, countdown: Option<int>, t: Tick, count: nat)
    ensures SlotByCalls(slot, CallsOf(t, count)) == SlotAfter(slot, Beat(t), count)
    ensures CountdownByCalls(countdown, CallsOf(t, count))
         == if Fails(t) then countdown
            else if Succeeds(t) && t.answer.value.remaining > 0 then Some(t.answer.value.remaining)
            else None
  {
    assert CallsOf(t, count) != [] ==> CallsOf(t, count)[..1][..0] == [];
    assert |CallsOf(t, count)| == 2 ==> CallsOf(t, count)[..1] == [CallsOf(t, count)[0]];
  }

  /** Without server events the slot is what the loop's own calls make of it. */
  lemma {:induction false} SlotFollowsCalls(was: bool, events: seq<Event>)
    requires forall i | 0 <= i < |events| :: events[i].Beat?
    ensures Occupied(was, events) == SlotByCalls(was, Calls(events))
  {
    if events != [] {
      var n := |events| - 1;
      var calls := CallsOf(events[n].tick, OnFuse(FailuresSinceSuccess(events)));
      SlotFollowsCalls(was, events[..n]);
      CallsAppend(was, None, Calls(events[..n]), calls);
      TickCalls(Occupied(was, events[..n]), None, events[n].tick, OnFuse(FailuresSinceSuccess(events)));
    }
  }

  /** The loop leaves its countdown alone: a failed send, or an update from the server. */
  predicate LeavesCountdown(e: Event) { e.ServerSays? || IsFailure(e) }

  function CountdownFor(t: Tick): Option<int>
    requires !Fails(t)
  {
    if t.locked || t.answer.value.remaining <= 0 then None else Some(t.answer.value.remaining)
  }

  lemma CountdownSnoc(was: Option<int>, events: seq<Event>, e: Event)
    ensures CountdownByCalls(was, Calls(events + [e]))
         == if LeavesCountdown(e) then CountdownByCalls(was, Calls(events)) else CountdownFor(e.tick)
  {
    EventSnoc(false, events, e);
    if e.ServerSays? {
      assert Calls(events) + [] == Calls(events);
    } else {
      var count := OnFuse(FailuresSinceSuccess(events + [e]));
      CallsAppend(false, was, Calls(events), CallsOf(e.tick, count));
      TickCalls(false, CountdownByCalls(was, Calls(events)), e.tick, count);
    }
  }

  /** The countdown goes by the last interval that did not fail, if there is one: it counts down the minutes of the
    * answer, and is off if none are left or the session was locked. Failed sends and server events leave it. */
  lemma {:induction false} CountdownFollows(was: Option<int>, events: seq<Event>, i: int)
    requires -1 <= i < |events| && (i >= 0 ==> !LeavesCountdown(events[i]))
    requires forall j | i < j < |events| :: LeavesCountdown(events[j])
    ensures CountdownByCalls(was, Calls(events)) == if i == -1 then was else CountdownFor(events[i].tick)
  {
    if events != [] {
      var n := |events| - 1;
      assert events == events[..n] + [events[n]];
      CountdownSnoc(was, events[..n], events[n]);
      if i < n {
        CountdownFollows(was, events[..n], i);
      }
    }
  }

  /** The loop turns the re-lock task on for an answer with no minutes left, which it passes on. */
  lemma {:induction false} RelockedByAnswers(events: seq<Event>, r: int)
    ensures Enable(Some(r)) in Calls(events)
       <==> r <= 0 && exists i :: 0 <= i < |events| && IsSuccess(events[i])
                                  && events[i].tick.answer.value.remaining == r
  {
    if events != [] {
      var n := |events| - 1;
      RelockedByAnswers(events[..n], r);
      assert Enable(Some(r)) in CallsAt(events[n], OnFuse(FailuresSinceSuccess(events)))
        <==> r <= 0 && IsSuccess(events[n]) && events[n].tick.answer.value.remaining == r;
      assert forall i | 0 <= i < n :: events[..n][i] == events[i];
    }
  }

  lemma FifthFailureSnoc(events: seq<Event>)
    requires events != []
    ensures
      var n := |events| - 1;
      && (FifthFailure(events, n) <==> IsFailure(events[n]) && OnFuse(FailuresSinceSuccess(events)) == 0)
      && forall i | 0 <= i < n :: FifthFailure(events, i) <==> FifthFailure(events[..n], i)
  {
    var n := |events| - 1;
    assert events[..n + 1] == events;
    forall i | 0 <= i < n ensures FifthFailure(events, i) <==> FifthFailure(events[..n], i) {
      assert events[..n][..i + 1] == events[..i + 1];
    }
  }

  /** And for the fifth failed send in a row, the tenth, and so on. */
  lemma {:induction false} RelockedByFailures(events: seq<Event>)
    ensures Enable(None) in Calls(events) <==> exists i :: 0 <= i < |events| && FifthFailure(events, i)
  {
    if events != [] {
      var n := |events| - 1;
      RelockedByFailures(events[..n]);
      FifthFailureSnoc(events);
      assert Enable(None) in CallsAt(events[n], OnFuse(FailuresSinceSuccess(events))) <==> FifthFailure(events, n);
    }
  }

  predicate FifthFailure(events: seq<Event>, i: nat)
    requires i < |events|
  {
    IsFailure(events[i]) && FailuresSinceSuccess(events[..i + 1]) % 5 == 0
  }

  // ---- What becomes of the counted minutes -------------------------------------------------------

  /** What is pending when a tick's batch is posted. */
  function Posted(p: P.Pending, t: Tick): P.Pending { P.Inserted(p, t.minute, t.insertOk) }

  /** What is pending after an interval: a locked one counts nothing; an unlocked one counts the minute on the clock,
    * and if the batch is answered all of it is marked as sent. */
  function PendingAfterTick(p: P.Pending, t: Tick): P.Pending {
    if t.locked then p
    else if t.answer.None? then Posted(p, t)
    else P.Marked(Posted(p, t), Posted(p, t).mem, t.markOk)
  }

  function PendingAfterEvent(p: P.Pending, e: Event): P.Pending {
    match e
    case ServerSays(_) => p
    case Beat(t) => PendingAfterTick(p, t)
  }

  function PendingAfter(p: P.Pending, events: seq<Event>): P.Pending {
    if events == [] then p
    else PendingAfterEvent(PendingAfter(p, events[..|events| - 1]), events[|events| - 1])
  }

  /** Event j is an interval whose batch holds the minute and was answered and marked as sent. */
  ghost predicate SentAt(p: P.Pending, events: seq<Event>, j: nat, minute: int)
    requires j < |events|
  {
    events[j].Beat? && Succeeds(events[j].tick) && minute in PendingAfter(p, events[..j]).mem + {events[j].tick.minute}
  }

  ghost predicate SentFrom(p: P.Pending, events: seq<Event>, i: nat, minute: int) {
    exists j :: i <= j < |events| && SentAt(p, events, j, minute)
  }

  lemma SentSnoc(p: P.Pending, events: seq<Event>, e: Event, i: nat, minute: int)
    ensures SentFrom(p, events, i, minute) ==> SentFrom(p, events + [e], i, minute)
    ensures i <= |events| && SentAt(p, events + [e], |events|, minute) ==> SentFrom(p, events + [e], i, minute)
    ensures (events + [e])[..|events|] == events
  {
    if j :| i <= j < |events| && SentAt(p, events, j, minute) {
      assert (events + [e])[..j] == events[..j];
      assert SentAt(p, events + [e], j, minute);
    }
  }

  /** The memory after a tick: the minute joins it, and a success empties it. */
  lemma TickMemory(p: P.Pending, t: Tick)
    ensures PendingAfterTick(p, t).mem
         == if t.locked then p.mem else if Succeeds(t) then {} else p.mem + {t.minute}
  {
    var posted := Posted(p, t);
    assert t.minute in posted.mem && posted.mem == p.mem + {t.minute};
    assert posted.mem - posted.mem == {} && posted.mem + posted.mem == posted.mem;
  }

  lemma {:induction false} PendingOrSent(p: P.Pending, events: seq<Event>, i: nat, minute: int)
    requires i <= |events| && minute in PendingAfter(p, events[..i]).mem
    ensures minute in PendingAfter(p, events).mem || SentFrom(p, events, i, minute)
  {
    if i == |events| {
      assert events[..i] == events;
    } else {
      var n := |events| - 1;
      assert events[..n][..i] == events[..i] && events == events[..n] + [events[n]];
      PendingOrSent(p, events[..n], i, minute);
      SentSnoc(p, events[..n], events[n], i, minute);
      if events[n].Beat? {
        TickMemory(PendingAfter(p, events[..n]), events[n].tick);
      }
    }
  }

  /** Every minute that was on the clock in an unlocked interval is still in memory, or was in a batch, that
    * interval's or a later one's, that was answered and marked. */
  lemma {:induction false} EveryMinuteCounts(p: P.Pending, events: seq<Event>, i: nat)
    requires i < |events| && events[i].Beat? && !events[i].tick.locked
    ensures
      var minute := events[i].tick.minute;
      minute in PendingAfter(p, events).mem || SentFrom(p, events, i, minute)
  {
    var before, t := PendingAfter(p, events[..i]), events[i].tick;
    assert events[..i + 1] == events[..i] + [events[i]] && events[..i + 1][..i] == events[..i];
    TickMemory(before, t);
    if Succeeds(t) {
      assert SentAt(p, events, i, t.minute);
    } else {
      PendingOrSent(p, events, i + 1, t.minute);
      if j :| i + 1 <= j < |events| && SentAt(p, events, j, t.minute) {
        assert SentFrom(p, events, i, t.minute);
      }
    }
  }

  /** Nothing is pending that was not on the clock in some unlocked interval, or pending to begin with. */
  lemma {:induction false} NothingInvented(p: P.Pending, events: seq<Event>, minute: int)
    requires minute in PendingAfter(p, events).mem
    ensures minute in p.mem
            || exists i :: 0 <= i < |events| && events[i].Beat? && !events[i].tick.locked
                           && events[i].tick.minute == minute
  {
    if events != [] {
      var n := |events| - 1;
      if events[n].Beat? {
        TickMemory(PendingAfter(p, events[..n]), events[n].tick);
      }
      if minute in PendingAfter(p, events[..n]).mem {
        NothingInvented(p, events[..n], minute);
      } else {
        assert events[n].tick.minute == minute;
      }
    }
  }

  // ---- One event after another -------------------------------------------------------------------

  /** All the loop keeps: its counter, the calls it has made, whether the slot is occupied, and what is pending. */
  datatype Kept = Kept(failures: nat, calls: seq<Call>, occupied: bool, pending: P.Pending)

  function KeptAfterEvent(k: Kept, e: Event): Kept {
    var failures := CountAfter(e, k.failures);
    Kept(failures, k.calls + CallsAt(e, failures), SlotAfter(k.occupied, e, failures), PendingAfterEvent(k.pending, e))
  }

  function KeptAfter(k: Kept, events: seq<Event>): Kept {
    Kept(OnFuse(FailuresSinceSuccess(events)), k.calls + Calls(events), Occupied(k.occupied, events),
         PendingAfter(k.pending, events))
  }

  lemma KeptSnoc(k: Kept, events: seq<Event>, e: Event)
    ensures KeptAfter(k, events + [e]) == KeptAfterEvent(KeptAfter(k, events), e)
  {
    EventSnoc(k.occupied, events, e);
    CountIsFailures(events, e);
    assert (events + [e])[..|events|] == events;
    Associative(k.calls, Calls(events), CallsAt(e, OnFuse(FailuresSinceSuccess(events + [e]))));
  }

  // ---- The loop ---------------------------------------------------------------------------------

  class Agent {
    const pending: P.PendingMinutes
    const relocker: R.ReLocker
    ghost var calls: seq<Call>

    constructor (pending: P.PendingMinutes, relocker: R.ReLocker)
      ensures this.pending == pending && this.relocker == relocker && calls == []
    {
      this.pending, this.relocker, calls := pending, relocker, [];
    }

    ghost predicate Valid()
      reads this, pending
    {
      pending.Valid()
    }

    ghost function Now(failures: nat): Kept
      reads this, pending, relocker
    {
      Kept(failures, calls, relocker.slot.Some?, pending.View())
    }

    /** Post what is pending and mark it as sent once answered. Ok(None) only when there was nothing to post. */
    method SendPending(answer: Option<Answer>, markOk: bool) returns (result: Result<Option<Answer>, ()>)
      requires pending.Valid()
      modifies pending
      ensures pending.Valid()
      ensures old(pending.minutes) != [] ==> result == if answer.Some? && markOk then Ok(answer) else Err(())
      ensures pending.View() ==
        if old(pending.minutes) == [] || answer.None? then old(pending.View())
        else P.Marked(old(pending.View()), old(pending.View()).mem, markOk)
    {
      if pending.IsEmpty() {
        return Ok(None);
      }
      var minutes := pending.Snapshot();
      if answer.None? {
        return Err(());
      }
      P.LastElement(minutes);
      var ok := pending.MarkSent(minutes, markOk);
      if !ok {
        return Err(());
      }
      return Ok(answer);
    }

    /** Intervals, and server events handled by the SSE task between them. After each the counter is the number of
      * failed sends since the last success, modulo five, the loop's calls are those the intervals call for, and
      * the slot is as these events leave it. */
    method RunEvents(events: seq<Event>) returns (failures: nat)
      requires Valid()
      requires forall i | 0 <= i < |events| && events[i].Beat? :: PendingLog.IsI64(events[i].tick.minute)
      modifies this, pending, relocker
      ensures Valid()
      ensures failures == OnFuse(FailuresSinceSuccess(events))
      ensures calls == old(calls) + Calls(events)
      ensures relocker.slot.Some? <==> Occupied(old(relocker.slot).Some?, events)
      ensures pending.View() == PendingAfter(old(pending.View()), events)
    {
      failures := 0;
      ghost var start := Now(0);
      assert start.calls + [] == start.calls;
      for i := 0 to |events|
        invariant Valid() && Now(failures) == KeptAfter(start, events[..i])
      {
        assert events[..i + 1] == events[..i] + [events[i]];
        KeptSnoc(start, events[..i], events[i]);
        failures := OneEvent(events[i], failures);
      }
      assert events[..|events|] == events;
    }

    method OneEvent(e: Event, failuresBefore: nat) returns (failures: nat)
      requires Valid() && failuresBefore < 5 && (e.Beat? ==> PendingLog.IsI64(e.tick.minute))
      modifies this, pending, relocker
      ensures Valid() && Now(failures) == KeptAfterEvent(old(Now(failuresBefore)), e)
    {
      match e {
        case Beat(t) => failures := Interval(t, failuresBefore);
        case ServerSays(remaining) =>
          relocker.OnRemainingUpdated(remaining);
          failures := failuresBefore;
      }
    }

    /** The loop until it is cancelled, and its shutdown. Server events that come between the disable and the end
      * of the SSE task are late: the last of them decides the slot. */
    method RunLoop(events: seq<Event>, late: seq<int>)
      requires Valid()
      requires forall i | 0 <= i < |events| && events[i].Beat? :: PendingLog.IsI64(events[i].tick.minute)
      modifies this, pending, relocker
      ensures pending.View() == PendingAfter(old(pending.View()), events)
      ensures calls == old(calls) + Calls(events) + [CancelCountdown, Disable]
      ensures relocker.slot.Some? <==> late != [] && late[|late| - 1] <= 0
    {
      var _ := RunEvents(events);
      Countdown(CancelCountdown);
      Unlock();
      for i := 0 to |late|
        invariant relocker.slot.Some? <==> i > 0 && late[i - 1] <= 0
        invariant calls == old(calls) + Calls(events) + [CancelCountdown, Disable]
        invariant pending.View() == PendingAfter(old(pending.View()), events)
      {
        relocker.OnRemainingUpdated(late[i]);
      }
    }

    /** Count the minute. What is pending then is the batch that is posted. */
    method Collect(minute: int, insertOk: bool) returns (batch: seq<int>)
      requires pending.Valid() && PendingLog.IsI64(minute)
      modifies pending
      ensures pending.Valid() && pending.View() == P.Inserted(old(pending.View()), minute, insertOk)
      ensures batch == pending.minutes == P.With(old(pending.minutes), minute) != []
    {
      var _ := pending.Insert(minute, insertOk);
      batch := pending.Snapshot();
    }

    /** One turn, from any slot. */
    method Interval(t: Tick, failuresBefore: nat) returns (failures: nat)
      requires Valid() && failuresBefore < 5 && PendingLog.IsI64(t.minute)
      modifies this, pending, relocker
      ensures Valid() && failures == NextCount(t, failuresBefore)
      ensures calls == old(calls) + CallsOf(t, failures)
      ensures relocker.slot.Some? <==> SlotAfter(old(relocker.slot).Some?, Beat(t), failures)
      ensures
        var counted := P.Inserted(old(pending.View()), t.minute, t.insertOk);
        pending.View() == if t.locked then old(pending.View())
                          else if t.answer.None? then counted
                          else P.Marked(counted, counted.mem, t.markOk)
    {
      if t.locked {
        Countdown(CancelCountdown);
        failures := failuresBefore;
      } else {
        var _ := Collect(t.minute, t.insertOk);
        failures := Conclude(t, failuresBefore);
      }
    }

    /** The rest of an unlocked turn. Nothing to post cannot happen: the minute itself is pending. */
    method Conclude(t: Tick, failuresBefore: nat) returns (failures: nat)
      requires Valid() && failuresBefore < 5 && !t.locked && pending.minutes != []
      modifies this, pending, relocker
      ensures Valid() && failures == NextCount(t, failuresBefore)
      ensures calls == old(calls) + CallsOf(t, failures)
      ensures relocker.slot.Some? <==> SlotAfter(old(relocker.slot).Some?, Beat(t), failures)
      ensures pending.View() == if t.answer.None? then old(pending.View())
                                else P.Marked(old(pending.View()), old(pending.View()).mem, t.markOk)
    {
      var result := SendPending(t.answer, t.markOk);
      match result {
        case Ok(Some(answer)) =>
          failures := 0;
          HandleAnswer(answer);
        case Ok(None) => assert false;
        case Err(_) => failures := HandleFailure(failuresBefore);
      }
    }

    method HandleFailure(failuresBefore: nat) returns (failures: nat)
      requires Valid() && failuresBefore < 5
      modifies this`calls, relocker
      ensures Valid() && failures == OnFuse(failuresBefore + 1)
      ensures calls == old(calls) + if failures == 0 then [Enable(None)] else []
      ensures relocker.slot.Some? <==> old(relocker.slot).Some? || failures == 0
    {
      failures := failuresBefore + 1;
      if 60 * failures >= 60 * 5 {
        Relock(None);
        failures := 0;
      }
    }

    method HandleAnswer(answer: Answer)
      requires Valid()
      modifies this`calls, relocker
      ensures Valid()
      ensures calls == old(calls) + if answer.remaining >= 1 then [Count(answer.remaining), Disable]
                                    else [CancelCountdown, Enable(Some(answer.remaining))]
      ensures relocker.slot.Some? <==> answer.remaining <= 0
    {
      if answer.remaining >= 1 {
        Countdown(Count(answer.remaining));
        Unlock();
      } else {
        Countdown(CancelCountdown);
      }
      if answer.remaining <= 0 {
        Relock(Some(answer.remaining));
      }
    }

    ghost method Countdown(call: Call)
      requires call.Count? || call.CancelCountdown?
      modifies this`calls
      ensures calls == old(calls) + [call]
    {
      calls := calls + [call];
    }

    method Relock(remaining: Option<int>)
      modifies this`calls, relocker
      ensures calls == old(calls) + [Enable(remaining)] && relocker.slot.Some?
    {
      relocker.Enable();
      calls := calls + [Enable(remaining)];
    }

    method Unlock()
      modifies this`calls, relocker
      ensures calls == old(calls) + [Disable] && relocker.slot == None
    {
      relocker.Disable();
      calls := calls + [Disable];
    }
  }
}
