/** The re-lock task: who owns it while enabling and disabling interleave, and how soon it locks again. */
module Relocker {
  import opened Prelude

  // ---- Ownership of the spawned tasks ---------------------------------------------------------

  /** Whoever calls: the main loop, the SSE subscriber, a shutdown. */
  datatype Actor = Actor(n: nat)

  /** The handle of a spawned task. */
  datatype Handle = Handle(n: nat)

  /** The slot, tasks taken out of it by a disable that has yet to abort them, and the aborted ones. */
  datatype Slots = Slots(slot: Option<Handle>, taken: map<Actor, Handle>, aborted: set<Handle>, spawned: nat)

  const NO_TASKS := Slots(None, map[], {}, 0)

  datatype Action = Enable(actor: Actor) | Take(actor: Actor) | Abort(actor: Actor)

  /** One step; a step that is not enabled does nothing. */
  function Step(s: Slots, action: Action): Slots {
    match action
    case Enable(actor) =>
      if actor in s.taken || s.slot.Some? then s
      else s.(slot := Some(Handle(s.spawned)), spawned := s.spawned + 1)
    case Take(actor) =>
      if actor in s.taken || s.slot.None? then s
      else s.(slot := None, taken := s.taken[actor := s.slot.value])
    case Abort(actor) =>
      if actor !in s.taken then s
      else s.(taken := s.taken - {actor}, aborted := s.aborted + {s.taken[actor]})
  }

  function Run(actions: seq<Action>): Slots {
    if actions == [] then NO_TASKS else Step(Run(actions[..|actions| - 1]), actions[|actions| - 1])
  }

  ghost predicate InSlot(s: Slots, h: Handle) { s.slot == Some(h) }

  ghost predicate TakenBy(s: Slots, a: Actor, h: Handle) { a in s.taken && s.taken[a] == h }

  ghost predicate BeingDisabled(s: Slots, h: Handle) { exists a :: TakenBy(s, a, h) }

  ghost predicate OneOwner(s: Slots, h: Handle) {
    && (h.n < s.spawned <==> InSlot(s, h) || BeingDisabled(s, h) || h in s.aborted)
    && !(InSlot(s, h) && BeingDisabled(s, h))
    && !(InSlot(s, h) && h in s.aborted)
    && !(BeingDisabled(s, h) && h in s.aborted)
    && (forall a, b :: TakenBy(s, a, h) && TakenBy(s, b, h) ==> a == b)
  }

  ghost predicate Owned(s: Slots) { forall h :: OneOwner(s, h) }

  lemma EnableOwned(s: Slots, actor: Actor, h: Handle)
    requires Owned(s)
    ensures OneOwner(Step(s, Enable(actor)), h)
  {
    var after := Step(s, Enable(actor));
    assert OneOwner(s, h);
    assert forall a :: TakenBy(after, a, h) <==> TakenBy(s, a, h);
    assert BeingDisabled(after, h) <==> BeingDisabled(s, h);
  }

  lemma TakeOwned(s: Slots, actor: Actor, h: Handle)
    requires Owned(s)
    ensures OneOwner(Step(s, Take(actor)), h)
  {
    var after := Step(s, Take(actor));
    assert OneOwner(s, h);
    if actor !in s.taken && s.slot.Some? {
      assert forall a :: TakenBy(after, a, h) <==> TakenBy(s, a, h) || (a == actor && InSlot(s, h));
      assert TakenBy(after, actor, s.slot.value);
      assert BeingDisabled(after, h) <==> BeingDisabled(s, h) || InSlot(s, h);
    }
  }

  lemma AbortOwned(s: Slots, actor: Actor, h: Handle)
    requires Owned(s)
    ensures OneOwner(Step(s, Abort(actor)), h)
  {
    var after := Step(s, Abort(actor));
    assert OneOwner(s, h);
    if actor in s.taken {
      assert TakenBy(s, actor, s.taken[actor]);
      assert forall a :: TakenBy(after, a, h) <==> TakenBy(s, a, h) && a != actor;
      assert BeingDisabled(after, h) <==> BeingDisabled(s, h) && h != s.taken[actor];
    }
  }

  lemma StepOwned(s: Slots, action: Action)
    requires Owned(s)
    ensures Owned(Step(s, action))
  {
    forall h ensures OneOwner(Step(s, action), h) {
      match action
      case Enable(actor) => EnableOwned(s, actor, h);
      case Take(actor) => TakeOwned(s, actor, h);
      case Abort(actor) => AbortOwned(s, actor, h);
    }
  }

  /** In every interleaving each re-lock task ever spawned is in the slot, or in the hands of one disable in
    * progress, or aborted, and never two of these: no task is lost and none is left running unowned. */
  lemma {:induction false} EveryTaskIsOwned(actions: seq<Action>)
    ensures Owned(Run(actions))
  {
    if actions != [] {
      EveryTaskIsOwned(actions[..|actions| - 1]);
      StepOwned(Run(actions[..|actions| - 1]), actions[|actions| - 1]);
    } else {
      assert forall h :: !BeingDisabled(NO_TASKS, h);
    }
  }

  /** With no disable in progress at most one task is running, and it is the one in the slot. */
  lemma {:induction false} OneTaskAtRest(actions: seq<Action>, h: Handle)
    requires Run(actions).taken == map[]
    ensures h.n < Run(actions).spawned && h !in Run(actions).aborted <==> Run(actions).slot == Some(h)
  {
    EveryTaskIsOwned(actions);
    assert OneOwner(Run(actions), h) && !BeingDisabled(Run(actions), h);
  }

  // ---- How soon an unlocked session is locked again ------------------------------------------

  datatype Observation = Unlocked | Locked | QueryFailed

  /** The grace before locking again: a minute at first, ten seconds less for each minute since. */
  function RelockDelay(elapsed: nat): nat {
    var elapsedSecs := elapsed / 1_000_000_000;
    var elapsedMinutes := elapsedSecs / 60;
    Nanos(Max(0, 60 - elapsedMinutes * 10))
  }

  lemma {:induction false} DelayNeverGrows(a: nat, b: nat)
    requires a <= b
    ensures RelockDelay(b) <= RelockDelay(a) <= Nanos(60)
    ensures Nanos(360) <= a ==> RelockDelay(a) == 0
  {
  }

  /** The wait a poll makes before its lock attempt, if it makes one. */
  function Wait(observed: Observation, at: nat): nat {
    if observed == Unlocked then RelockDelay(at) else 0
  }

  /** When poll k happens, counting from the initial lock attempt. */
  function PollTime(seen: seq<Observation>, k: nat): nat
    requires k <= |seen|
  {
    if k == 0 then 0
    else
      var p := PollTime(seen, k - 1);
      p + Wait(seen[k - 1], p) + Nanos(5)
  }

  function Attempts(seen: seq<Observation>): seq<nat> {
    if seen == [] then [0]
    else
      var n := |seen| - 1;
      var p := PollTime(seen, n);
      Attempts(seen[..n]) + if seen[n] == Unlocked then [p + RelockDelay(p)] else []
  }

  lemma {:induction false} PollPrefix(seen: seq<Observation>, n: nat, k: nat)
    requires k <= n <= |seen|
    ensures PollTime(seen[..n], k) == PollTime(seen, k)
  {
    if k > 0 {
      PollPrefix(seen, n, k - 1);
    }
  }

  lemma {:induction false} UnlockedIsAttempted(seen: seq<Observation>, k: nat)
    requires k < |seen| && seen[k] == Unlocked
    ensures PollTime(seen, k) + RelockDelay(PollTime(seen, k)) in Attempts(seen)
  {
    var n := |seen| - 1;
    PollPrefix(seen, n, k);
    if k < n {
      UnlockedIsAttempted(seen[..n], k);
    } else {
      PollPrefix(seen, n, n);
    }
  }

  /** Polls fall on multiples of five seconds. */
  lemma {:induction false} PollsOnFives(seen: seq<Observation>, k: nat)
    requires k <= |seen|
    ensures PollTime(seen, k) % 5_000_000_000 == 0
  {
    if k > 0 {
      PollsOnFives(seen, k - 1);
      DelayInTens(PollTime(seen, k - 1));
      SumOnFives(PollTime(seen, k - 1), Wait(seen[k - 1], PollTime(seen, k - 1)));
    }
  }

  lemma SumOnFives(p: nat, wait: nat)
    requires p % 5_000_000_000 == 0 && wait % 10_000_000_000 == 0
    ensures (p + wait + Nanos(5)) % 5_000_000_000 == 0
  {
  }

  lemma DelayInTens(at: nat)
    ensures RelockDelay(at) % 10_000_000_000 == 0
  {
    var tens := Max(0, 6 - at / 1_000_000_000 / 60);
    assert RelockDelay(at) == tens * 10_000_000_000;
  }

  /** A delay begun before u and still running at u ends soon enough for u. */
  lemma DelayAcross(p: nat, u: nat)
    requires p % 5_000_000_000 == 0 && p < u <= p + RelockDelay(p)
    ensures p + RelockDelay(p) <= u + Nanos(5) + RelockDelay(u)
  {
    var mp, mu := p / 1_000_000_000 / 60, u / 1_000_000_000 / 60;
    assert mp == p / 60_000_000_000 && mu == u / 60_000_000_000;
    assert RelockDelay(p) <= Nanos(60);
    assert mp <= mu <= mp + 1;
    if mu == mp + 1 {
      var fives := p / 5_000_000_000;
      assert p == fives * 5_000_000_000;
      assert fives < mu * 12;
      assert p + 5_000_000_000 <= mu * 60_000_000_000 <= u;
    }
  }

  /** The grace in the first six minutes after the initial lock attempt, and none after that. */
  lemma DelayByMinute(at: nat, minute: nat)
    requires 60_000_000_000 * minute <= at < 60_000_000_000 * (minute + 1)
    ensures RelockDelay(at)
         == if minute == 0 then 60_000_000_000
            else if minute == 1 then 50_000_000_000
            else if minute == 2 then 40_000_000_000
            else if minute == 3 then 30_000_000_000
            else if minute == 4 then 20_000_000_000
            else if minute == 5 then 10_000_000_000
            else 0
  {
    assert at / 1_000_000_000 / 60 == minute;
  }

  /** The attempts are the initial one and one at the end of the grace of each poll that sees the session unlocked. */
  lemma {:induction false} AttemptsExactly(seen: seq<Observation>, a: nat)
    ensures a in Attempts(seen) <==>
      a == 0 || exists k: nat :: k < |seen| && seen[k] == Unlocked && AttemptOf(seen, k) == a
  {
    if seen != [] {
      var n := |seen| - 1;
      AttemptsExactly(seen[..n], a);
      forall k: nat | k <= n ensures PollTime(seen[..n], k) == PollTime(seen, k) {
        PollPrefix(seen, n, k);
      }
      assert a in Attempts(seen) <==> a in Attempts(seen[..n]) || (seen[n] == Unlocked && a == AttemptOf(seen, n));
      if a in Attempts(seen[..n]) && a != 0 {
        var k: nat :| k < n && seen[..n][k] == Unlocked && AttemptOf(seen[..n], k) == a;
        assert seen[k] == Unlocked && AttemptOf(seen, k) == a;
      }
      if k: nat :| k < |seen| && seen[k] == Unlocked && AttemptOf(seen, k) == a {
        if k < n {
          assert seen[..n][k] == Unlocked && AttemptOf(seen[..n], k) == a;
        }
      }
    }
  }

  /** When the poll's attempt is made if it sees the session unlocked. */
  function AttemptOf(seen: seq<Observation>, k: nat): nat
    requires k < |seen|
  {
    PollTime(seen, k) + RelockDelay(PollTime(seen, k))
  }

  lemma {:induction false} PollsInOrder(seen: seq<Observation>, k: nat, l: nat)
    requires k < l <= |seen|
    ensures PollTime(seen, k) + Wait(seen[k], PollTime(seen, k)) + Nanos(5) <= PollTime(seen, l)
  {
    if k < l - 1 {
      PollsInOrder(seen, k, l - 1);
    }
  }

  /** The grace is given: from a poll that sees the session unlocked to its attempt there is no other attempt. */
  lemma {:induction false} GraceIsGiven(seen: seq<Observation>, k: nat, a: nat)
    requires k < |seen| && seen[k] == Unlocked && a in Attempts(seen)
    requires 0 < a && PollTime(seen, k) <= a <= AttemptOf(seen, k)
    ensures a == AttemptOf(seen, k)
  {
    AttemptsExactly(seen, a);
    var l: nat :| l < |seen| && seen[l] == Unlocked && AttemptOf(seen, l) == a;
    if l < k {
      PollsInOrder(seen, l, k);
    } else if k < l {
      PollsInOrder(seen, k, l);
    }
  }

  /** Polls that do not find the session unlocked follow one another five seconds apart. */
  lemma {:induction false} PollsWithoutWait(seen: seq<Observation>, k: nat, f: nat)
    requires k + f <= |seen| && forall i | k <= i < k + f :: seen[i] != Unlocked
    ensures PollTime(seen, k + f) == PollTime(seen, k) + Nanos(5 * f)
  {
    if f > 0 {
      PollsWithoutWait(seen, k, f - 1);
    }
  }

  /** An attempt that was under way at u, or five seconds from u to the next poll. */
  lemma SoonPolledOrAttempted(seen: seq<Observation>, k: nat, u: nat)
    requires k < |seen| && u <= PollTime(seen, k) && (k == 0 || PollTime(seen, k - 1) < u)
    ensures PollTime(seen, k) <= u + Nanos(5)
            || exists a :: a in Attempts(seen) && u <= a <= u + Nanos(5) + RelockDelay(u)
  {
    if k > 0 && seen[k - 1] == Unlocked {
      var q := PollTime(seen, k - 1);
      UnlockedIsAttempted(seen, k - 1);
      PollsOnFives(seen, k - 1);
      if u <= q + RelockDelay(q) {
        DelayAcross(q, u);
        assert q + RelockDelay(q) in Attempts(seen);
      }
    }
  }

  /** Let the session be unlocked at time u, let poll k be the first from then on, and let f polls pass that fail
    * to see it before one does. A lock attempt follows within 5 (f + 1) seconds plus the delay due at u. With no
    * such poll that is at most 65 seconds, and 5 once six minutes have passed. */
  lemma {:induction false} RelockedInTime(seen: seq<Observation>, k: nat, f: nat, u: nat)
    requires k + f < |seen| && seen[k + f] == Unlocked
    requires forall i | k <= i < k + f :: seen[i] != Unlocked
    requires u <= PollTime(seen, k) && (k == 0 || PollTime(seen, k - 1) < u)
    ensures exists a :: a in Attempts(seen) && u <= a <= u + Nanos(5 * (f + 1)) + RelockDelay(u)
    ensures Nanos(5) + RelockDelay(u) <= Nanos(65)
    ensures Nanos(360) <= u ==> RelockDelay(u) == 0
  {
    SoonPolledOrAttempted(seen, k, u);
    DelayNeverGrows(u, u);
    if PollTime(seen, k) <= u + Nanos(5) {
      PollsWithoutWait(seen, k, f);
      var p := PollTime(seen, k + f);
      DelayNeverGrows(u, p);
      UnlockedIsAttempted(seen, k + f);
      assert p + RelockDelay(p) in Attempts(seen);
    } else {
      var a :| a in Attempts(seen) && u <= a <= u + Nanos(5) + RelockDelay(u);
      assert u <= a <= u + Nanos(5 * (f + 1)) + RelockDelay(u);
    }
  }

  /** The task attempts to lock again if and only if some poll sees the session unlocked: while the lock state
    * cannot be read there is no attempt but the first, however long that goes on. */
  lemma {:induction false} UnseenIsNeverLocked(seen: seq<Observation>)
    ensures Attempts(seen) == [0] <==> forall i | 0 <= i < |seen| :: seen[i] != Unlocked
    ensures Attempts(seen) != []
    ensures Attempts(seen) == [0] ==> PollTime(seen, |seen|) == Nanos(5 * |seen|)
  {
    if seen != [] {
      var n := |seen| - 1;
      UnseenIsNeverLocked(seen[..n]);
      if Attempts(seen) == [0] {
        PollsWithoutWait(seen, 0, |seen|);
      }
    }
  }

  /** The body of the spawned task. Operating-system calls take no time; sleeps last as asked. */
  class RelockTask {
    var clock: nat
    var attempts: seq<nat>

    constructor ()
      ensures clock == 0 && attempts == []
    {
      clock, attempts := 0, [];
    }

    method Lock()
      modifies this`attempts
      ensures attempts == old(attempts) + [clock]
    {
      attempts := attempts + [clock];
    }

    method Sleep(nanos: nat)
      modifies this`clock
      ensures clock == old(clock) + nanos
    {
      clock := clock + nanos;
    }

    /** Lock at once, then poll for as long as observations come. */
    method RunTask(seen: seq<Observation>)
      requires clock == 0 && attempts == []
      modifies this
      ensures attempts == Attempts(seen) && clock == PollTime(seen, |seen|)
    {
      var initialLockAt := clock;
      Lock();
      for i := 0 to |seen|
        invariant attempts == Attempts(seen[..i]) && clock == PollTime(seen, i)
      {
        PollPrefix(seen, i, i);
        PollPrefix(seen, i + 1, i);
        assert seen[..i + 1][..i] == seen[..i];
        match seen[i] {
          case Unlocked =>
            var wait := RelockDelay(clock - initialLockAt);
            if wait != 0 {
              Sleep(wait);
            }
            Lock();
          case _ =>
        }
        Sleep(Nanos(5));
      }
      assert seen[..|seen|] == seen;
    }
  }

  // ---- The object the agent holds ------------------------------------------------------------

  class ReLocker {
    var slot: Option<Handle>
    var aborted: set<Handle>
    var spawned: nat

    /** Seen from one caller, with nobody else in the middle of a disable. */
    ghost function State(): Slots
      reads this
    {
      Slots(slot, map[], aborted, spawned)
    }

    constructor ()
      ensures State() == NO_TASKS
    {
      slot, spawned, aborted := None, 0, {};
    }

    /** Spawn a task unless there is one. */
    method Enable()
      modifies this
      ensures State() == Step(old(State()), Action.Enable(Actor(0))) && slot.Some?
    {
      if slot.Some? {
        return;
      }
      var handle := Spawn();
      slot := Some(handle);
    }

    /** The runtime starts a task and hands out a handle no other task has. */
    method Spawn() returns (handle: Handle)
      modifies this`spawned
      ensures handle == Handle(old(spawned)) && spawned == old(spawned) + 1
    {
      handle := Handle(spawned);
      spawned := spawned + 1;
    }

    /** Take the task out of the slot, if any, and abort it. */
    method Disable()
      modifies this
      ensures State() == Step(Step(old(State()), Take(Actor(0))), Abort(Actor(0))) && slot == None
    {
      var taken := slot;
      slot := None;
      if taken.Some? {
        aborted := aborted + {taken.value};
      }
    }

    /** The SSE subscriber's answer to an update of the remaining minutes. */
    method OnRemainingUpdated(remaining: int)
      modifies this
      ensures State() == if remaining > 0 then Step(Step(old(State()), Take(Actor(0))), Abort(Actor(0)))
                         else Step(old(State()), Action.Enable(Actor(0)))
      ensures slot.Some? <==> remaining <= 0
    {
      if remaining > 0 {
        Disable();
      } else {
        Enable();
      }
    }
  }
}
