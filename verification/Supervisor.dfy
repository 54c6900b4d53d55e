/** The Windows service's session supervisor: one agent task per session, restarted and stopped through events. */
module Supervisor {
  import opened Prelude

  datatype Session = Session(id: nat)

  /** A spawned agent task and the cancellation token it watches. */
  datatype Task = Task(session: Session, generation: nat, token: nat)

  datatype Worker = Worker(token: nat, generation: nat, attempt: nat, active: bool, removeOnExit: bool)

  datatype ExitKind = Requested | Completed | Failed

  /** A delayed RestartSession on its way to the queue. */
  datatype Timer = Timer(session: Session, delaySecs: nat)

  datatype View = View(
    workers: map<Session, Worker>,
    tasks: set<Task>,
    stopping: bool,
    cancelled: set<nat>,
    nextToken: nat,
    timers: multiset<Timer>)

  const INITIAL := View(map[], {}, false, {}, 0, multiset{})

  const U64 := 0x1_0000_0000_0000_0000
  const U32_MAX := 0xffff_ffff

  function BackoffSecs(attempt: nat): nat {
    if attempt == 0 then 1
    else if attempt == 1 then 5
    else if attempt == 2 then 15
    else if attempt == 3 then 30
    else 60
  }

  // ---- The transitions -----------------------------------------------------------------------

  function Start(v: View, s: Session): View
    requires s in v.workers
  {
    var w := v.workers[s];
    var generation := (w.generation + 1) % U64;
    v.(workers := v.workers[s := Worker(v.nextToken, generation, w.attempt, true, false)],
       tasks := v.tasks + {Task(s, generation, v.nextToken)},
       nextToken := v.nextToken + 1)
  }

  function Activate(v: View, s: Session): View {
    if v.stopping then v
    else if s in v.workers then
      if v.workers[s].active then v else Start(v, s)
    else
      Start(v.(workers := v.workers[s := Worker(v.nextToken, 0, 0, false, false)], nextToken := v.nextToken + 1), s)
  }

  function Deactivate(v: View, s: Session): View {
    if s in v.workers then
      v.(workers := v.workers[s := v.workers[s].(removeOnExit := true)],
         cancelled := v.cancelled + {v.workers[s].token})
    else v
  }

  function CancelAll(v: View): View {
    v.(workers := map s | s in v.workers :: v.workers[s].(removeOnExit := true),
       cancelled := v.cancelled + set s | s in v.workers :: v.workers[s].token)
  }

  function Stop(v: View): View {
    if v.stopping then v else CancelAll(v.(stopping := true))
  }

  /** A task that has left the join set reports how it ended. */
  function Exit(v: View, t: Task, kind: ExitKind): View {
    if t.session !in v.workers || v.workers[t.session].generation != t.generation then v
    else
      var w := v.workers[t.session].(active := false);
      if kind == Failed then
        if w.removeOnExit || v.stopping then v.(workers := v.workers - {t.session})
        else
          v.(workers := v.workers[t.session := w.(attempt := Min(w.attempt + 1, U32_MAX))],
             timers := v.timers + multiset{Timer(t.session, BackoffSecs(w.attempt))})
      else
        if w.removeOnExit then v.(workers := v.workers - {t.session})
        else v.(workers := v.workers[t.session := w.(attempt := 0)])
  }

  /** The loop leaves when it is stopping with nothing to wait for. */
  predicate AtBreak(v: View) {
    v.stopping && v.tasks == {} && v.workers == map[]
  }

  datatype Event =
    | Activated(session: Session)
    | Deactivated(session: Session)
    | RestartDue(timer: Timer)
    | StopRequested
    | Exited(task: Task, kind: ExitKind)
    | Panicked(task: Task)

  predicate Enabled(v: View, e: Event) {
    match e
    case RestartDue(timer) => timer in v.timers
    case Exited(task, _) => task in v.tasks
    case Panicked(task) => task in v.tasks
    case _ => true
  }

  /** One turn of the event loop; an event that cannot happen does nothing. */
  function Step(v: View, e: Event): View {
    if !Enabled(v, e) then v
    else
      match e
      case Activated(s) => Activate(v, s)
      case Deactivated(s) => Deactivate(v, s)
      case RestartDue(timer) => Activate(v.(timers := v.timers - multiset{timer}), timer.session)
      case StopRequested => Stop(v)
      case Exited(task, kind) => Exit(v.(tasks := v.tasks - {task}), task, kind)
      case Panicked(task) => v.(tasks := v.tasks - {task})
  }

  function Run(start: View, events: seq<Event>): View {
    if events == [] then start else Step(Run(start, events[..|events| - 1]), events[|events| - 1])
  }

  ghost predicate NoPanics(events: seq<Event>) {
    forall i | 0 <= i < |events| :: !events[i].Panicked?
  }

  // ---- Uniqueness ----------------------------------------------------------------------------

  /** Tasks and active workers are in one-to-one correspondence, down to generation and token. */
  ghost predicate Consistent(v: View) {
    && (forall t | t in v.tasks ::
          && t.session in v.workers && v.workers[t.session].active
          && v.workers[t.session].generation == t.generation && v.workers[t.session].token == t.token)
    && (forall s | s in v.workers && v.workers[s].active ::
          Task(s, v.workers[s].generation, v.workers[s].token) in v.tasks)
    && (forall s | s in v.workers :: v.workers[s].token < v.nextToken)
    && (forall c | c in v.cancelled :: c < v.nextToken)
    && (v.stopping ==> forall t | t in v.tasks :: t.token in v.cancelled)
  }

  lemma StartConsistent(v: View, s: Session)
    requires Consistent(v) && s in v.workers && !v.workers[s].active && !v.stopping
    ensures Consistent(Start(v, s))
  {
    assert forall t | t in v.tasks :: t.session != s;
  }

  lemma ActivateConsistent(v: View, s: Session)
    requires Consistent(v)
    ensures Consistent(Activate(v, s))
  {
    if !v.stopping {
      if s !in v.workers {
        var workers := v.workers[s := Worker(v.nextToken, 0, 0, false, false)];
        var added := v.(workers := workers, nextToken := v.nextToken + 1);
        assert Consistent(added);
        StartConsistent(added, s);
      } else if !v.workers[s].active {
        StartConsistent(v, s);
      }
    }
  }

  lemma StopConsistent(v: View)
    requires Consistent(v)
    ensures Consistent(Stop(v))
  {
  }

  lemma ExitConsistent(v: View, t: Task, kind: ExitKind)
    requires Consistent(v) && t in v.tasks
    ensures Consistent(Exit(v.(tasks := v.tasks - {t}), t, kind))
  {
    assert forall u | u in v.tasks && u != t :: u.session != t.session;
  }

  lemma StepConsistent(v: View, e: Event)
    requires Consistent(v) && !e.Panicked?
    ensures Consistent(Step(v, e))
  {
    match e
    case Activated(s) => ActivateConsistent(v, s);
    case Deactivated(s) =>
    case RestartDue(timer) =>
      if timer in v.timers {
        ActivateConsistent(v.(timers := v.timers - multiset{timer}), timer.session);
      }
    case StopRequested => StopConsistent(v);
    case Exited(task, kind) =>
      if task in v.tasks {
        ExitConsistent(v, task, kind);
      }
    case Panicked(_) =>
  }

  lemma {:induction false} RunConsistent(start: View, events: seq<Event>)
    requires Consistent(start) && NoPanics(events)
    ensures Consistent(Run(start, events))
  {
    if events != [] {
      RunConsistent(start, events[..|events| - 1]);
      StepConsistent(Run(start, events[..|events| - 1]), events[|events| - 1]);
    }
  }

  ghost predicate HasTask(v: View, s: Session, generation: nat) {
    exists t :: t in v.tasks && t.session == s && t.generation == generation
  }

  /** The session's tasks are its active worker's, and an active worker has its task. */
  ghost predicate SessionOk(v: View, s: Session) {
    && (forall t | t in v.tasks && t.session == s ::
          && s in v.workers && v.workers[s].active
          && v.workers[s].generation == t.generation && v.workers[s].token == t.token)
    && (s in v.workers && v.workers[s].active ==>
          Task(s, v.workers[s].generation, v.workers[s].token) in v.tasks)
  }

  /** The worker counts as active but has no task to report its end. */
  ghost predicate Stranded(v: View, s: Session) {
    s in v.workers && v.workers[s].active && forall t | t in v.tasks :: t.session != s
  }

  ghost predicate NoPanicOf(events: seq<Event>, s: Session) {
    forall i | 0 <= i < |events| :: events[i].Panicked? ==> events[i].task.session != s
  }

  lemma ActivateSessionOk(v: View, s: Session, other: Session)
    requires SessionOk(v, s)
    ensures SessionOk(Activate(v, other), s)
  {
    if s == other && !v.stopping && !(s in v.workers && v.workers[s].active) {
      assert forall t | t in v.tasks :: t.session != s;
    }
  }

  lemma ExitSessionOk(v: View, s: Session, t: Task, kind: ExitKind)
    requires SessionOk(v, s) && t in v.tasks
    ensures SessionOk(Step(v, Exited(t, kind)), s)
  {
    if t.session == s {
      assert forall u | u in v.tasks && u != t :: u.session != s;
    }
  }

  lemma StepSessionOk(v: View, s: Session, e: Event)
    requires SessionOk(v, s)
    ensures
      if e.Panicked? && e.task in v.tasks && e.task.session == s then Stranded(Step(v, e), s)
      else SessionOk(Step(v, e), s)
  {
    match e
    case Activated(other) => ActivateSessionOk(v, s, other);
    case Deactivated(other) =>
    case RestartDue(timer) =>
      if timer in v.timers {
        ActivateSessionOk(v.(timers := v.timers - multiset{timer}), s, timer.session);
      }
    case StopRequested =>
    case Exited(task, kind) =>
      if task in v.tasks {
        ExitSessionOk(v, s, task, kind);
      }
    case Panicked(task) =>
      if task in v.tasks && task.session == s {
        assert forall u | u in v.tasks && u != task :: u.session != s;
      }
  }

  lemma StepStranded(v: View, s: Session, e: Event)
    requires Stranded(v, s)
    ensures Stranded(Step(v, e), s)
  {
    match e
    case Activated(other) =>
    case Deactivated(other) =>
    case RestartDue(timer) =>
    case StopRequested =>
    case Exited(task, kind) =>
      assert task in v.tasks ==> task.session != s;
    case Panicked(_) =>
  }

  lemma {:induction false} RunSession(events: seq<Event>, s: Session)
    ensures SessionOk(Run(INITIAL, events), s) || Stranded(Run(INITIAL, events), s)
    ensures NoPanicOf(events, s) ==> SessionOk(Run(INITIAL, events), s)
  {
    if events != [] {
      var n := |events| - 1;
      var v := Run(INITIAL, events[..n]);
      RunSession(events[..n], s);
      if SessionOk(v, s) {
        StepSessionOk(v, s, events[n]);
      } else {
        StepStranded(v, s, events[n]);
      }
    }
  }

  /** In every reachable state, panics included, a session has at most one task, its worker is active and carries
    * that task's generation, and a session without a worker has none; so an exit is never stale. While no task
    * of the session has panicked, its worker is active only if there is such a task. */
  lemma {:induction false} OneTaskPerSession(events: seq<Event>)
    ensures
      var v := Run(INITIAL, events);
      && (forall t, u | t in v.tasks && u in v.tasks && t.session == u.session :: t == u)
      && (forall t | t in v.tasks ::
            && t.session in v.workers && v.workers[t.session].active
            && v.workers[t.session].generation == t.generation)
      && (forall s | s in v.workers && NoPanicOf(events, s) ::
            v.workers[s].active <==> HasTask(v, s, v.workers[s].generation))
  {
    var v := Run(INITIAL, events);
    forall t | t in v.tasks ensures SessionOk(v, t.session) {
      RunSession(events, t.session);
    }
    forall s | s in v.workers && NoPanicOf(events, s)
      ensures v.workers[s].active <==> HasTask(v, s, v.workers[s].generation)
    {
      RunSession(events, s);
      if v.workers[s].active {
        var t := Task(s, v.workers[s].generation, v.workers[s].token);
        assert t in v.tasks && t.session == s && t.generation == v.workers[s].generation;
      }
    }
  }

  // ---- Activation and deactivation -----------------------------------------------------------

  /** The session has a task nobody has asked to stop. */
  ghost predicate Live(v: View, s: Session) {
    exists t :: t in v.tasks && t.session == s && t.token !in v.cancelled
  }

  ghost predicate Dying(v: View, s: Session) {
    exists t :: t in v.tasks && t.session == s && t.token in v.cancelled
  }

  /** An activation leaves the session with a live task unless the service is stopping or the session's
    * cancelled task has not exited yet; in those two cases it is lost. A deactivation always bites. */
  lemma {:induction false} ActivationTakesEffect(events: seq<Event>, s: Session)
    requires NoPanics(events)
    ensures
      var v := Run(INITIAL, events);
      && (Live(Step(v, Activated(s)), s) <==> !v.stopping && !Dying(v, s))
      && !Live(Step(v, Deactivated(s)), s)
  {
    RunConsistent(INITIAL, events);
    var v := Run(INITIAL, events);
    var after := Step(v, Activated(s));
    StepConsistent(v, Activated(s));
    StepConsistent(v, Deactivated(s));
    if s in after.workers && after.workers[s].active {
      var t := Task(s, after.workers[s].generation, after.workers[s].token);
      assert t in after.tasks && t.session == s;
    }
  }

  /** An activation while the deactivated task is still on its way out is lost. */
  lemma {:induction false} ActivationLost(s: Session)
    ensures
      var v1 := Step(INITIAL, Activated(s));
      var v2 := Step(v1, Deactivated(s));
      Dying(v2, s) && Step(v2, Activated(s)) == v2
  {
    var v2 := Step(Step(INITIAL, Activated(s)), Deactivated(s));
    assert Task(s, 1, 1) in v2.tasks && 1 in v2.cancelled;
  }

  // ---- Staying deactivated -------------------------------------------------------------------

  /** A restart of the session is on its way. */
  ghost predicate RestartPending(v: View, s: Session) {
    exists timer :: timer in v.timers && timer.session == s
  }

  /** The session is down and nothing under way can bring it back. */
  ghost predicate Down(v: View, s: Session) {
    && Consistent(v)
    && (v.stopping || !RestartPending(v, s))
    && (s in v.workers && v.workers[s].active ==> v.workers[s].token in v.cancelled)
    && (s in v.workers && !v.stopping ==> v.workers[s].removeOnExit)
  }

  lemma DownIsNotLive(v: View, s: Session)
    requires Down(v, s)
    ensures !Live(v, s)
  {
  }

  lemma ExitStaysDown(v: View, s: Session, t: Task, kind: ExitKind)
    requires Down(v, s) && t in v.tasks
    ensures Down(Step(v, Exited(t, kind)), s)
  {
    var after := Step(v, Exited(t, kind));
    StepConsistent(v, Exited(t, kind));
    forall timer | timer in after.timers && timer !in v.timers ensures timer.session == t.session && !v.stopping {
    }
    if t.session == s && !v.stopping {
      assert after.timers == v.timers;
    }
  }

  lemma RestartStaysDown(v: View, s: Session, timer: Timer)
    requires Down(v, s) && timer in v.timers
    ensures Down(Step(v, RestartDue(timer)), s)
  {
    var after := Step(v, RestartDue(timer));
    StepConsistent(v, RestartDue(timer));
    assert forall t | t in after.timers :: t in v.timers;
    if !v.stopping {
      assert timer.session != s;
      assert s in after.workers <==> s in v.workers;
    }
  }

  lemma StepStaysDown(v: View, s: Session, e: Event)
    requires Down(v, s) && !e.Panicked? && e != Activated(s)
    ensures Down(Step(v, e), s)
  {
    StepConsistent(v, e);
    match e
    case Exited(t, kind) =>
      if t in v.tasks {
        ExitStaysDown(v, s, t, kind);
      }
    case RestartDue(timer) =>
      if timer in v.timers {
        RestartStaysDown(v, s, timer);
      }
    case _ =>
  }

  ghost predicate NoActivation(events: seq<Event>, s: Session) {
    forall i | 0 <= i < |events| :: events[i] != Activated(s)
  }

  lemma {:induction false} RunStaysDown(v: View, s: Session, later: seq<Event>)
    requires Down(v, s) && NoPanics(later) && NoActivation(later, s)
    ensures Down(Run(v, later), s)
  {
    if later != [] {
      var n := |later| - 1;
      RunStaysDown(v, s, later[..n]);
      StepStaysDown(Run(v, later[..n]), s, later[n]);
    }
  }

  /** The events that bring a deactivated session back: its old task exits, if there is one, and the restart fires. */
  function Revival(v: View, s: Session, timer: Timer): seq<Event> {
    if s in v.workers && v.workers[s].active then
      [Exited(Task(s, v.workers[s].generation, v.workers[s].token), Completed), RestartDue(timer)]
    else [RestartDue(timer)]
  }

  lemma RestartRevives(v: View, s: Session, timer: Timer)
    requires Consistent(v) && !v.stopping && timer in v.timers && timer.session == s
    requires s in v.workers ==> !v.workers[s].active
    ensures Live(Step(v, RestartDue(timer)), s)
  {
    var after := Step(v, RestartDue(timer));
    StepConsistent(v, RestartDue(timer));
    var t := Task(s, after.workers[s].generation, after.workers[s].token);
    assert t in after.tasks && t.session == s && t.token !in v.cancelled;
  }

  lemma RunOne(v: View, e: Event)
    ensures Run(v, [e]) == Step(v, e)
  {
    assert [e][..0] == [];
  }

  lemma PendingRestartRevives(v: View, s: Session, timer: Timer)
    requires Consistent(v) && !v.stopping && timer in v.timers && timer.session == s
    ensures Live(Run(Step(v, Deactivated(s)), Revival(Step(v, Deactivated(s)), s, timer)), s)
  {
    var down := Step(v, Deactivated(s));
    StepConsistent(v, Deactivated(s));
    var revival := Revival(down, s, timer);
    var n := |revival| - 1;
    var ready := Run(down, revival[..n]);
    if n == 1 {
      assert revival[..1] == [revival[0]];
      RunOne(down, revival[0]);
      StepConsistent(down, revival[0]);
    }
    RestartRevives(ready, s, timer);
  }

  /** Some continuation without an activation of the session or a panic makes it live again. */
  ghost predicate CanRevive(v: View, s: Session) {
    exists later :: NoPanics(later) && NoActivation(later, s) && Live(Run(v, later), s)
  }

  lemma DeactivatedIsDown(v: View, s: Session)
    requires Consistent(v) && (v.stopping || !RestartPending(v, s))
    ensures Down(Step(v, Deactivated(s)), s)
  {
    StepConsistent(v, Deactivated(s));
  }

  lemma DownForGood(v: View, s: Session)
    requires Down(v, s)
    ensures !CanRevive(v, s)
  {
    forall later | NoPanics(later) && NoActivation(later, s) ensures !Live(Run(v, later), s) {
      RunStaysDown(v, s, later);
      DownIsNotLive(Run(v, later), s);
    }
  }

  lemma DeactivatedCanRevive(v: View, s: Session)
    requires Consistent(v) && !v.stopping && RestartPending(v, s)
    ensures CanRevive(Step(v, Deactivated(s)), s)
  {
    var timer :| timer in v.timers && timer.session == s;
    var down := Step(v, Deactivated(s));
    PendingRestartRevives(v, s, timer);
    var later := Revival(down, s, timer);
    assert NoPanics(later) && NoActivation(later, s) && Live(Run(down, later), s);
  }

  /** A deactivated session stays down until it is activated again, whatever else happens, if and only if
    * the service was stopping or no restart of it was on its way when it was deactivated. */
  lemma {:induction false} StaysDeactivated(events: seq<Event>, s: Session)
    requires NoPanics(events)
    ensures
      var v := Run(INITIAL, events);
      !CanRevive(Step(v, Deactivated(s)), s) <==> v.stopping || !RestartPending(v, s)
  {
    RunConsistent(INITIAL, events);
    var v := Run(INITIAL, events);
    if v.stopping || !RestartPending(v, s) {
      DeactivatedIsDown(v, s);
      DownForGood(Step(v, Deactivated(s)), s);
    } else {
      DeactivatedCanRevive(v, s);
    }
  }

  /** A run that meets the condition: a restart already on its way brings back a session deactivated meanwhile. */
  lemma {:induction false} DelayedRestartRevives(s: Session)
    ensures
      var t := Task(s, 1, 1);
      var v1 := Step(INITIAL, Activated(s));
      var v2 := Step(v1, Exited(t, Failed));
      var v3 := Step(v2, Deactivated(s));
      var v4 := Step(v3, RestartDue(Timer(s, 1)));
      !Live(v3, s) && Live(v4, s)
  {
    var v1 := Step(INITIAL, Activated(s));
    assert v1.workers[s].token == 1;
    var v2 := Step(v1, Exited(Task(s, 1, 1), Failed));
    var v3 := Step(v2, Deactivated(s));
    var v4 := Step(v3, RestartDue(Timer(s, 1)));
    assert v3.tasks == {};
    assert Task(s, 2, 2) in v4.tasks && 2 !in v4.cancelled;
  }

  // ---- Backing off ---------------------------------------------------------------------------

  /** How many times in a row the session's tasks have failed unasked: since its worker was made, and since the
    * last task that ended in any other way or after it had been cancelled. */
  function FailuresInARow(events: seq<Event>, s: Session): nat {
    if events == [] then 0
    else
      var n := |events| - 1;
      NextInARow(Run(INITIAL, events[..n]), events[n], s, FailuresInARow(events[..n], s))
  }

  function NextInARow(v: View, e: Event, s: Session, before: nat): nat {
    if e.Exited? && e.task in v.tasks && e.task.session == s then
      if e.kind == Failed && e.task.token !in v.cancelled then before + 1 else 0
    else before
  }

  /** What an event schedules and takes away, after so many failures in a row of its session. */
  function TimersAfter(v: View, e: Event, timers: multiset<Timer>, failures: nat): multiset<Timer> {
    match e
    case Exited(t, Failed) =>
      if t in v.tasks && t.token !in v.cancelled then
        timers + multiset{Timer(t.session, [1, 5, 15, 30, 60][Min(failures, 4)])}
      else timers
    case RestartDue(timer) => timers - multiset{timer}
    case _ => timers
  }

  ghost predicate TokensDiffer(v: View) {
    forall s, t | s in v.workers && t in v.workers && s != t :: v.workers[s].token != v.workers[t].token
  }

  /** The worker's attempts are the failures in a row, and it is marked for removal when its task is cancelled. */
  ghost predicate Backed(v: View, s: Session, failures: nat) {
    if s in v.workers then
      && v.workers[s].attempt == Min(failures, U32_MAX)
      && (v.workers[s].active ==> (v.workers[s].removeOnExit <==> v.workers[s].token in v.cancelled))
    else failures == 0
  }

  lemma ActivateBacked(v: View, s: Session, other: Session, failures: nat)
    requires Consistent(v) && TokensDiffer(v) && Backed(v, s, failures)
    ensures TokensDiffer(Activate(v, other)) && Backed(Activate(v, other), s, failures)
  {
  }

  lemma CancelBacked(v: View, s: Session, e: Event, failures: nat)
    requires TokensDiffer(v) && Backed(v, s, failures) && (e.Deactivated? || e.StopRequested?)
    ensures TokensDiffer(Step(v, e)) && Backed(Step(v, e), s, failures)
  {
    if e.StopRequested? && s in v.workers && !v.stopping {
      assert v.workers[s].token in Step(v, e).cancelled;
    }
  }

  lemma ExitBacked(v: View, s: Session, t: Task, kind: ExitKind, failures: nat)
    requires Consistent(v) && TokensDiffer(v) && Backed(v, s, failures) && t in v.tasks
    ensures TokensDiffer(Step(v, Exited(t, kind)))
    ensures Backed(Step(v, Exited(t, kind)), s, NextInARow(v, Exited(t, kind), s, failures))
  {
  }

  lemma StepBacked(v: View, s: Session, e: Event, failures: nat)
    requires Consistent(v) && TokensDiffer(v) && Backed(v, s, failures) && !e.Panicked?
    ensures TokensDiffer(Step(v, e)) && Backed(Step(v, e), s, NextInARow(v, e, s, failures))
  {
    match e
    case Activated(other) => ActivateBacked(v, s, other, failures);
    case Deactivated(_) => CancelBacked(v, s, e, failures);
    case RestartDue(timer) =>
      if timer in v.timers {
        ActivateBacked(v.(timers := v.timers - multiset{timer}), s, timer.session, failures);
      }
    case StopRequested => CancelBacked(v, s, e, failures);
    case Exited(task, kind) =>
      if task in v.tasks {
        ExitBacked(v, s, task, kind, failures);
      }
    case Panicked(_) =>
  }

  lemma {:induction false} RunBacked(events: seq<Event>, s: Session)
    requires NoPanics(events)
    ensures
      var v := Run(INITIAL, events);
      Consistent(v) && TokensDiffer(v) && Backed(v, s, FailuresInARow(events, s))
  {
    if events != [] {
      var n := |events| - 1;
      RunBacked(events[..n], s);
      StepConsistent(Run(INITIAL, events[..n]), events[n]);
      StepBacked(Run(INITIAL, events[..n]), s, events[n], FailuresInARow(events[..n], s));
    }
  }

  lemma StepTimers(v: View, e: Event, failures: nat)
    requires Consistent(v) && (e.Exited? ==> Backed(v, e.task.session, failures))
    ensures Step(v, e).timers == TimersAfter(v, e, v.timers, failures)
  {
    if e.RestartDue? && e.timer !in v.timers {
      assert v.timers - multiset{e.timer} == v.timers;
    }
    if e.Exited? && e.task in v.tasks {
      ExitTimers(v, e.task, e.kind, failures);
    }
  }

  lemma ExitTimers(v: View, t: Task, kind: ExitKind, failures: nat)
    requires Consistent(v) && t in v.tasks && Backed(v, t.session, failures)
    ensures Step(v, Exited(t, kind)).timers == TimersAfter(v, Exited(t, kind), v.timers, failures)
  {
    assert [1, 5, 15, 30, 60][Min(failures, 4)] == BackoffSecs(v.workers[t.session].attempt);
  }

  function ScheduledRestarts(events: seq<Event>): multiset<Timer> {
    if events == [] then multiset{}
    else
      var n := |events| - 1;
      var e := events[n];
      TimersAfter(Run(INITIAL, events[..n]), e, ScheduledRestarts(events[..n]),
                  if e.Exited? then FailuresInARow(events[..n], e.task.session) else 0)
  }

  /** In every panic-free run the restarts on their way are those scheduled and not yet due: a task that fails
    * without having been cancelled schedules exactly one, after 1, 5, 15, 30 and from the fifth failure in a row
    * on 60 seconds; any other exit schedules none. */
  lemma {:induction false} RestartsBackOff(events: seq<Event>)
    requires NoPanics(events)
    ensures Run(INITIAL, events).timers == ScheduledRestarts(events)
  {
    if events != [] {
      var n := |events| - 1;
      RestartsBackOff(events[..n]);
      RunConsistent(INITIAL, events[..n]);
      if events[n].Exited? {
        RunBacked(events[..n], events[n].task.session);
        StepTimers(Run(INITIAL, events[..n]), events[n], FailuresInARow(events[..n], events[n].task.session));
      } else {
        StepTimers(Run(INITIAL, events[..n]), events[n], 0);
      }
    }
  }

  /** The next failure of a running task nobody has cancelled, after k in a row. */
  lemma {:induction false} NextFailureWaits(events: seq<Event>, t: Task, k: nat)
    requires NoPanics(events) && t in Run(INITIAL, events).tasks && t.token !in Run(INITIAL, events).cancelled
    requires k == FailuresInARow(events, t.session)
    ensures
      var v := Run(INITIAL, events);
      var delay := if k == 0 then 1 else if k == 1 then 5 else if k == 2 then 15 else if k == 3 then 30 else 60;
      Step(v, Exited(t, Failed)).timers == v.timers + multiset{Timer(t.session, delay)}
  {
    RunBacked(events, t.session);
    ExitTimers(Run(INITIAL, events), t, Failed, k);
  }

  /** An exit takes its task out, and its worker too if and only if the task had been cancelled; it changes nothing
    * about other sessions. */
  lemma {:induction false} ExitDecides(events: seq<Event>, t: Task, kind: ExitKind)
    requires NoPanics(events) && t in Run(INITIAL, events).tasks
    ensures
      var v := Run(INITIAL, events);
      var after := Step(v, Exited(t, kind));
      && after.tasks == v.tasks - {t} && after.cancelled == v.cancelled && after.stopping == v.stopping
      && after.workers.Keys == v.workers.Keys - (if t.token in v.cancelled then {t.session} else {})
      && (t.session in after.workers ==> !after.workers[t.session].active)
      && (forall s | s in v.workers && s != t.session :: after.workers[s] == v.workers[s])
  {
    RunBacked(events, t.session);
  }

  // ---- Stopping ------------------------------------------------------------------------------

  /** Sessions whose worker waits in the map without a task. */
  ghost function Parked(v: View): set<Session> {
    set s | s in v.workers && !v.workers[s].active
  }

  /** How many tasks exit during these events. */
  ghost function Exits(start: View, events: seq<Event>): nat {
    if events == [] then 0
    else
      var n := |events| - 1;
      Exits(start, events[..n])
      + if events[n].Exited? && Enabled(Run(start, events[..n]), events[n]) then 1 else 0
  }

  /** Nothing is started any more, what runs is told to stop, and only the parked outlive their tasks. */
  ghost predicate WindingDown(stopped: View, v: View) {
    && Consistent(v) && v.stopping
    && v.tasks <= stopped.tasks
    && (forall t | t in v.tasks :: t.token in v.cancelled)
    && (forall s | s in v.workers :: v.workers[s].removeOnExit)
    && Parked(v) == Parked(stopped)
  }

  lemma StopWindsDown(v: View)
    requires Consistent(v) && !v.stopping
    ensures WindingDown(Stop(v), Stop(v))
  {
  }

  lemma StepWindsDown(stopped: View, v: View, e: Event)
    requires WindingDown(stopped, v) && !e.Panicked?
    ensures WindingDown(stopped, Step(v, e))
    ensures Step(v, e).tasks == if e.Exited? then v.tasks - {e.task} else v.tasks
  {
    StepConsistent(v, e);
    var after := Step(v, e);
    if e.Exited? && e.task in v.tasks {
      assert Parked(after) == Parked(v);
    } else {
      assert Parked(after) == Parked(v);
    }
  }

  /** From the moment Stop is handled no task is started, every task left has been cancelled, each exit takes
    * one task away, and the loop reaches its break after exactly as many exits as there were tasks, provided
    * no worker was parked when Stop was handled. With a parked worker it never does. */
  lemma {:induction false} StopReachesBreak(events: seq<Event>, later: seq<Event>)
    requires NoPanics(events) && NoPanics(later) && !Run(INITIAL, events).stopping
    ensures
      var v := Run(INITIAL, events);
      var stopped := Step(v, StopRequested);
      var end := Run(stopped, later);
      && stopped.tasks == v.tasks && end.tasks <= v.tasks
      && (forall t | t in end.tasks :: t.token in end.cancelled)
      && |end.tasks| + Exits(stopped, later) == |v.tasks|
      && (AtBreak(end) <==> Exits(stopped, later) == |v.tasks| && Parked(v) == {})
  {
    RunConsistent(INITIAL, events);
    var v := Run(INITIAL, events);
    StopWindsDown(v);
    WindsDown(Stop(v), later);
    assert Parked(Stop(v)) == Parked(v);
    EmptyMap(Run(Stop(v), later));
  }

  /** A worker gets parked when its task completes: a session that activates and finishes keeps Stop waiting. */
  lemma {:induction false} CompletedWorkerIsParked(s: Session)
    ensures
      var v := Run(INITIAL, [Activated(s), Exited(Task(s, 1, 1), Completed)]);
      Parked(v) == {s} && v.tasks == {} && !AtBreak(Step(v, StopRequested))
  {
    var events := [Activated(s), Exited(Task(s, 1, 1), Completed)];
    assert events[..1] == [Activated(s)];
    RunOne(INITIAL, Activated(s));
    var v1 := Step(INITIAL, Activated(s));
    assert Task(s, 1, 1) in v1.tasks;
    var v := Step(v1, Exited(Task(s, 1, 1), Completed));
    assert v.workers.Keys == {s} && !v.workers[s].active;
  }

  lemma EmptyMap(v: View)
    requires Consistent(v)
    ensures v.workers == map[] <==> v.tasks == {} && Parked(v) == {}
  {
    if v.tasks == {} && Parked(v) == {} {
      assert forall s | s in v.workers :: s in Parked(v);
      assert v.workers.Keys == {};
    }
    if v.workers == map[] {
      assert Parked(v) == {};
    }
  }

  lemma {:induction false} WindsDown(stopped: View, later: seq<Event>)
    requires WindingDown(stopped, stopped) && NoPanics(later)
    ensures WindingDown(stopped, Run(stopped, later))
    ensures |Run(stopped, later).tasks| + Exits(stopped, later) == |stopped.tasks|
  {
    if later != [] {
      var n := |later| - 1;
      WindsDown(stopped, later[..n]);
      StepWindsDown(stopped, Run(stopped, later[..n]), later[n]);
    }
  }

  // ---- What a panic costs --------------------------------------------------------------------

  /** If a task panics, whatever panicked before, its session is stranded for good: no event starts it again and
    * the loop never breaks. */
  lemma {:induction false} PanicStrands(events: seq<Event>, t: Task, later: seq<Event>)
    requires t in Run(INITIAL, events).tasks
    ensures
      var end := Run(Step(Run(INITIAL, events), Panicked(t)), later);
      Stranded(end, t.session) && !AtBreak(end)
  {
    var v := Run(INITIAL, events);
    if later != [] {
      var n := |later| - 1;
      PanicStrands(events, t, later[..n]);
      StepStranded(Run(Step(v, Panicked(t)), later[..n]), t.session, later[n]);
    } else {
      RunSession(events, t.session);
      StepSessionOk(v, t.session, Panicked(t));
    }
  }

  // ---- Cancelling one by one -----------------------------------------------------------------

  /** As CancelAll, for these sessions only. */
  ghost function CancelSome(v: View, sessions: set<Session>): View {
    v.(workers := map s | s in v.workers ::
                    if s in sessions then v.workers[s].(removeOnExit := true) else v.workers[s],
       cancelled := v.cancelled + set s | s in v.workers && s in sessions :: v.workers[s].token)
  }

  lemma CancelNone(v: View)
    ensures CancelSome(v, v.workers.Keys - v.workers.Keys) == v
  {
    assert CancelSome(v, {}).workers == v.workers;
  }

  lemma CancelEvery(v: View)
    ensures CancelSome(v, v.workers.Keys - {}) == CancelAll(v)
  {
    assert CancelSome(v, v.workers.Keys - {}).workers == CancelAll(v).workers;
    assert CancelSome(v, v.workers.Keys - {}).cancelled == CancelAll(v).cancelled;
  }

  lemma CancelOne(v: View, sessions: set<Session>, s: Session)
    requires s in v.workers && s !in sessions
    ensures
      var some := CancelSome(v, sessions);
      && s in some.workers && some.workers[s] == v.workers[s]
      && CancelSome(v, sessions + {s})
         == some.(workers := some.workers[s := v.workers[s].(removeOnExit := true)],
                  cancelled := some.cancelled + {v.workers[s].token})
  {
    var some, more := CancelSome(v, sessions), CancelSome(v, sessions + {s});
    assert more.workers == some.workers[s := v.workers[s].(removeOnExit := true)];
    assert more.cancelled == some.cancelled + {v.workers[s].token};
  }

  // ---- The supervisor itself -----------------------------------------------------------------

  class SessionSupervisor {
    var workers: map<Session, Worker>
    var joinset: set<Task>
    var stopping: bool
    var cancelled: set<nat>
    var nextToken: nat
    var timers: multiset<Timer>

    function Now(): View
      reads this
    {
      View(workers, joinset, stopping, cancelled, nextToken, timers)
    }

    constructor ()
      ensures Now() == INITIAL
    {
      workers, joinset, stopping := map[], {}, false;
      cancelled, nextToken, timers := {}, 0, multiset{};
    }

    method NewToken() returns (token: nat)
      modifies this`nextToken
      ensures token == old(nextToken) && nextToken == old(nextToken) + 1
    {
      token := nextToken;
      nextToken := nextToken + 1;
    }

    method StartWorker(s: Session)
      requires s in workers
      modifies this
      ensures Now() == Start(old(Now()), s)
    {
      var w := workers[s];
      var generation := (w.generation + 1) % U64;
      var token := NewToken();
      joinset := joinset + {Task(s, generation, token)};
      workers := workers[s := w.(generation := generation, token := token, active := true, removeOnExit := false)];
    }

    method ActivateSession(s: Session)
      modifies this
      ensures Now() == Activate(old(Now()), s)
    {
      if stopping {
        return;
      }
      if s !in workers {
        var token := NewToken();
        workers := workers[s := Worker(token, 0, 0, false, false)];
      }
      if workers[s].active {
        return;
      }
      StartWorker(s);
    }

    method DeactivateSession(s: Session)
      modifies this
      ensures Now() == Deactivate(old(Now()), s)
    {
      if s in workers {
        workers := workers[s := workers[s].(removeOnExit := true)];
        cancelled := cancelled + {workers[s].token};
      }
    }

    method CancelAllWorkers()
      modifies this
      ensures Now() == CancelAll(old(Now()))
    {
      var todo := workers.Keys;
      ghost var before := Now();
      CancelNone(before);
      while todo != {}
        invariant todo <= before.workers.Keys == workers.Keys
        invariant Now() == CancelSome(before, before.workers.Keys - todo)
        decreases todo
      {
        var s :| s in todo;
        CancelOne(before, before.workers.Keys - todo, s);
        workers := workers[s := workers[s].(removeOnExit := true)];
        cancelled := cancelled + {workers[s].token};
        todo := todo - {s};
        assert before.workers.Keys - todo == before.workers.Keys - (todo + {s}) + {s};
      }
      CancelEvery(before);
    }

    /** The exit of a task that join_next has already taken out of the join set. */
    method HandleExit(t: Task, kind: ExitKind)
      modifies this
      ensures Now() == Exit(old(Now()), t, kind)
    {
      if t.session !in workers {
        return;
      }
      if workers[t.session].generation != t.generation {
        return;
      }
      ghost var old1, w := workers, workers[t.session].(active := false);
      workers := workers[t.session := workers[t.session].(active := false)];
      UpdateTwice(old1, t.session, w, w.(attempt := 0));
      UpdateTwice(old1, t.session, w.(attempt := 0), w);
      UpdateTwice(old1, t.session, w, w.(attempt := Min(w.attempt + 1, U32_MAX)));
      match kind {
        case Failed =>
          if workers[t.session].removeOnExit || stopping {
            workers := workers - {t.session};
          } else {
            var delaySecs := NextDelay(t.session);
            timers := timers + multiset{Timer(t.session, delaySecs)};
          }
        case _ =>
          workers := workers[t.session := workers[t.session].(attempt := 0)];
          if workers[t.session].removeOnExit {
            workers := workers - {t.session};
          }
      }
    }

    method NextDelay(s: Session) returns (delaySecs: nat)
      requires s in workers
      modifies this`workers
      ensures delaySecs == BackoffSecs(old(workers[s].attempt))
      ensures workers == old(workers)[s := old(workers[s]).(attempt := Min(old(workers[s].attempt) + 1, U32_MAX))]
    {
      var attempt := workers[s].attempt;
      match attempt {
        case 0 => delaySecs := 1;
        case 1 => delaySecs := 5;
        case 2 => delaySecs := 15;
        case 3 => delaySecs := 30;
        case _ => delaySecs := 60;
      }
      workers := workers[s := workers[s].(attempt := if attempt < U32_MAX then attempt + 1 else U32_MAX)];
    }

    method HandleStop()
      modifies this
      ensures Now() == Stop(old(Now()))
    {
      if !stopping {
        stopping := true;
        CancelAllWorkers();
      }
    }

    method HandleRestart(s: Session)
      modifies this
      ensures Now() == Activate(old(Now()), s)
    {
      if stopping {
        return;
      }
      ActivateSession(s);
    }

    /** One turn of the loop: take the event that is ready and handle it. */
    method HandleEvent(e: Event)
      requires Enabled(Now(), e)
      modifies this
      ensures Now() == Step(old(Now()), e)
    {
      match e {
        case Activated(s) => ActivateSession(s);
        case Deactivated(s) => DeactivateSession(s);
        case RestartDue(timer) =>
          timers := timers - multiset{timer};
          HandleRestart(timer.session);
        case StopRequested => HandleStop();
        case Exited(task, kind) =>
          joinset := joinset - {task};
          HandleExit(task, kind);
        case Panicked(task) =>
          joinset := joinset - {task};
      }
    }

    /** The event loop over the events that arrive, in order; it stops early only at its break. */
    method RunLoop(events: seq<Event>) returns (handled: nat)
      modifies this
      ensures handled <= |events| && Now() == Run(old(Now()), events[..handled])
      ensures handled < |events| ==> AtBreak(Now())
      ensures forall i | 0 <= i < handled :: !AtBreak(Run(old(Now()), events[..i]))
    {
      handled := 0;
      while handled < |events|
        invariant handled <= |events| && Now() == Run(old(Now()), events[..handled])
        invariant forall i | 0 <= i < handled :: !AtBreak(Run(old(Now()), events[..i]))
      {
        if stopping && joinset == {} && workers == map[] {
          return;
        }
        assert events[..handled + 1][..handled] == events[..handled];
        if Enabled(Now(), events[handled]) {
          HandleEvent(events[handled]);
        }
        handled := handled + 1;
      }
    }
  }
}
