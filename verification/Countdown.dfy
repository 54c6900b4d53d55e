/** The countdown task: when a child is cautioned, warned and left alone. Times are nanoseconds. */
module Countdown {
  import opened Prelude

  datatype Sched = Sched(
    finalAt: int, warnAt: int, warnSecs: nat, cautionSecs: nat, cautionNotified: bool, warnNotified: bool)

  datatype Action = Caution(displaySecs: nat) | Clear

  /** A new deadline for an existing schedule. */
  function Updated(s: Sched, now: int, leftSecs: nat): (Sched, Option<Action>) {
    var finalAt := now + Nanos(leftSecs);
    var warnAt := if leftSecs > s.warnSecs then finalAt - Nanos(s.warnSecs) else now;
    var cleared := leftSecs > s.cautionSecs && s.cautionNotified;
    var caution := leftSecs <= s.cautionSecs && !s.cautionNotified;
    (s.(finalAt := finalAt,
        warnAt := warnAt,
        cautionNotified := leftSecs <= s.cautionSecs,
        warnNotified := s.warnNotified && leftSecs <= s.warnSecs),
     if cleared then Some(Clear) else if caution then Some(Caution(leftSecs)) else None)
  }

  function Created(now: int, leftSecs: nat, warnSecs: nat, cautionSecs: nat): (Sched, Option<Action>) {
    Updated(Sched(now, now, warnSecs, cautionSecs, false, false), now, leftSecs)
  }

  function NextDeadline(s: Sched, now: int): Option<int> {
    if s.warnNotified then None else Some(Max(s.warnAt, now))
  }

  // ---- The task over a stream of inputs -------------------------------------------------------

  /** What the platform is asked to show. A warning records when it was due. */
  datatype Notice = CautionShown(secs: nat) | CautionCleared | Hidden | Warned(due: int)

  /** When it was shown, and for which schedule of the task, counting from one. */
  datatype Shown = Shown(at: int, notice: Notice, serial: nat)

  datatype State = State(schedule: Option<Sched>, timer: int, farInFuture: int, warnSecs: nat, cautionSecs: nat,
                         shown: seq<Shown>, serial: nat)

  datatype Input = Update(now: int, leftSecs: nat) | Cancel(now: int) | Timer(now: int)

  function Notices(action: Option<Action>, now: int, serial: nat): seq<Shown> {
    match action
    case None => []
    case Some(Caution(secs)) => [Shown(now, CautionShown(secs), serial)]
    case Some(Clear) => [Shown(now, CautionCleared, serial)]
  }

  function Step(s: State, input: Input): State {
    match input
    case Update(now, left) =>
      var serial := if s.schedule.Some? then s.serial else s.serial + 1;
      var (sched, action) := if s.schedule.Some? then Updated(s.schedule.value, now, left)
                             else Created(now, left, s.warnSecs, s.cautionSecs);
      var next := NextDeadline(sched, now);
      s.(schedule := Some(sched), serial := serial, shown := s.shown + Notices(action, now, serial),
         timer := if next.Some? then next.value else s.farInFuture)
    case Cancel(now) =>
      s.(schedule := None, shown := s.shown + [Shown(now, Hidden, s.serial)], timer := s.farInFuture)
    case Timer(now) =>
      if now < s.timer then s
      else if s.schedule.None? then s.(timer := s.farInFuture)
      else
        var sched := s.schedule.value;
        var warns := !sched.warnNotified && sched.warnAt <= now;
        var fired := if warns then sched.(warnNotified := true) else sched;
        var shown := if warns then s.shown + [Shown(now, Warned(sched.warnAt), s.serial)] else s.shown;
        match NextDeadline(fired, now)
        case Some(deadline) => s.(schedule := Some(fired), shown := shown, timer := deadline)
        case None => s.(schedule := None, shown := shown, timer := s.farInFuture)
  }

  function Idle(far: int, warnSecs: nat, cautionSecs: nat): State {
    State(None, far, far, warnSecs, cautionSecs, [], 0)
  }

  function Run(start: State, inputs: seq<Input>): State {
    if inputs == [] then start else Step(Run(start, inputs[..|inputs| - 1]), inputs[|inputs| - 1])
  }

  ghost predicate Timely(inputs: seq<Input>) {
    forall i, j :: 0 <= i <= j < |inputs| ==> inputs[i].now <= inputs[j].now
  }

  // ---- A schedule that is kept has not warned ------------------------------------------------

  /** A kept schedule still has its one warning to give, within the warning time of its end, and the
    * timer is set for exactly then. */
  ghost predicate Kept(s: State) {
    s.schedule.Some? ==>
      var sched := s.schedule.value;
      && sched.warnSecs == s.warnSecs && sched.cautionSecs == s.cautionSecs
      && !sched.warnNotified
      && sched.finalAt - Nanos(sched.warnSecs) <= sched.warnAt <= sched.finalAt
      && s.timer == sched.warnAt
  }

  lemma {:induction false} StepKept(s: State, input: Input)
    requires Kept(s)
    ensures Kept(Step(s, input))
  {
  }

  /** After any stream of updates, cancellations and timer fires. */
  lemma {:induction false} AlwaysKept(far: int, warnSecs: nat, cautionSecs: nat, inputs: seq<Input>)
    ensures Kept(Run(Idle(far, warnSecs, cautionSecs), inputs))
  {
    if inputs != [] {
      AlwaysKept(far, warnSecs, cautionSecs, inputs[..|inputs| - 1]);
      StepKept(Run(Idle(far, warnSecs, cautionSecs), inputs[..|inputs| - 1]), inputs[|inputs| - 1]);
    }
  }

  /** So when the timer fires on a schedule it always warns and the schedule is dropped. */
  lemma {:induction false} TimerAlwaysWarns(far: int, warnSecs: nat, cautionSecs: nat, inputs: seq<Input>, now: int)
    ensures
      var s := Run(Idle(far, warnSecs, cautionSecs), inputs);
      s.schedule.Some? && s.timer <= now ==>
        && Step(s, Timer(now)).schedule == None
        && Step(s, Timer(now)).shown == s.shown + [Shown(now, Warned(s.schedule.value.warnAt), s.serial)]
  {
    AlwaysKept(far, warnSecs, cautionSecs, inputs);
  }

  // ---- What a child sees ----------------------------------------------------------------------

  function Warnings(shown: seq<Shown>, serial: nat): nat {
    if shown == [] then 0
    else
      var last := shown[|shown| - 1];
      Warnings(shown[..|shown| - 1], serial) + if last.notice.Warned? && last.serial == serial then 1 else 0
  }

  /** Whether the last caution mark of a schedule was a caution (true), a clear (false), or absent. */
  function LastMark(shown: seq<Shown>, serial: nat): Option<bool> {
    if shown == [] then None
    else
      var last := shown[|shown| - 1];
      if last.serial == serial && last.notice.CautionShown? then Some(true)
      else if last.serial == serial && last.notice == CautionCleared then Some(false)
      else LastMark(shown[..|shown| - 1], serial)
  }

  /** Within each schedule a caution comes first and from then on clears and cautions take turns. */
  ghost predicate Alternates(shown: seq<Shown>) {
    shown == [] ||
    (var front, last := shown[..|shown| - 1], shown[|shown| - 1];
     && Alternates(front)
     && (last.notice.CautionShown? ==> LastMark(front, last.serial) != Some(true))
     && (last.notice == CautionCleared ==> LastMark(front, last.serial) == Some(true)))
  }

  /** What was shown up to this schedule: nothing early, one warning per schedule, marks that take turns. */
  ghost predicate ShownWell(shown: seq<Shown>, serial: nat) {
    && Alternates(shown)
    && (forall i | 0 <= i < |shown| :: shown[i].serial <= serial)
    && (forall i | 0 <= i < |shown| :: shown[i].notice.Warned? ==> shown[i].notice.due <= shown[i].at)
    && (forall any :: Warnings(shown, any) <= 1)
  }

  /** The kept schedule's own marks agree with its flags. */
  ghost predicate Agrees(schedule: Option<Sched>, shown: seq<Shown>, serial: nat) {
    schedule.Some? ==>
      && Warnings(shown, serial) == 0
      && (schedule.value.cautionNotified <==> LastMark(shown, serial) == Some(true))
  }

  ghost predicate Honest(s: State) {
    Kept(s) && ShownWell(s.shown, s.serial) && Agrees(s.schedule, s.shown, s.serial)
  }

  lemma ShowOne(shown: seq<Shown>, one: Shown, serial: nat)
    ensures Warnings(shown + [one], serial)
         == Warnings(shown, serial) + if one.notice.Warned? && one.serial == serial then 1 else 0
    ensures LastMark(shown + [one], serial)
         == if one.serial == serial && one.notice.CautionShown? then Some(true)
            else if one.serial == serial && one.notice == CautionCleared then Some(false)
            else LastMark(shown, serial)
  {
    assert (shown + [one])[..|shown|] == shown;
  }

  lemma ShowWell(shown: seq<Shown>, one: Shown, serial: nat)
    requires ShownWell(shown, serial) && one.serial <= serial
    requires one.notice.CautionShown? ==> LastMark(shown, one.serial) != Some(true)
    requires one.notice == CautionCleared ==> LastMark(shown, one.serial) == Some(true)
    requires one.notice.Warned? ==> one.notice.due <= one.at && Warnings(shown, one.serial) == 0
    ensures ShownWell(shown + [one], serial)
  {
    assert (shown + [one])[..|shown|] == shown;
    forall any ensures Warnings(shown + [one], any) <= 1 {
      ShowOne(shown, one, any);
    }
  }

  lemma {:induction false} NothingLater(shown: seq<Shown>, serial: nat)
    requires forall i | 0 <= i < |shown| :: shown[i].serial < serial
    ensures Warnings(shown, serial) == 0 && LastMark(shown, serial) == None
  {
    if shown != [] {
      NothingLater(shown[..|shown| - 1], serial);
    }
  }

  /** What an update shows, given what the schedule of that serial has shown so far. */
  lemma UpdateShowsWell(shown: seq<Shown>, serial: nat, sched: Sched, now: int, left: nat)
    requires ShownWell(shown, serial) && Agrees(Some(sched), shown, serial)
    ensures
      var (updated, action) := Updated(sched, now, left);
      var after := shown + Notices(action, now, serial);
      ShownWell(after, serial) && Agrees(Some(updated), after, serial)
  {
    var notices := Notices(Updated(sched, now, left).1, now, serial);
    if notices == [] {
      assert shown + notices == shown;
    } else {
      ShowWell(shown, notices[0], serial);
      ShowOne(shown, notices[0], serial);
    }
  }

  lemma {:induction false} UpdateHonest(s: State, now: int, left: nat)
    requires Honest(s)
    ensures Honest(Step(s, Update(now, left)))
  {
    StepKept(s, Update(now, left));
    if s.schedule.Some? {
      UpdateShowsWell(s.shown, s.serial, s.schedule.value, now, left);
    } else {
      NothingLater(s.shown, s.serial + 1);
      UpdateShowsWell(s.shown, s.serial + 1, Sched(now, now, s.warnSecs, s.cautionSecs, false, false), now, left);
    }
  }

  lemma {:induction false} TimerHonest(s: State, now: int)
    requires Honest(s)
    ensures Honest(Step(s, Timer(now)))
  {
    StepKept(s, Timer(now));
    if s.schedule.Some? && s.timer <= now {
      ShowWell(s.shown, Shown(now, Warned(s.schedule.value.warnAt), s.serial), s.serial);
    }
  }

  lemma {:induction false} CancelHonest(s: State, now: int)
    requires Honest(s)
    ensures Honest(Step(s, Cancel(now)))
  {
    ShowWell(s.shown, Shown(now, Hidden, s.serial), s.serial);
  }

  lemma {:induction false} RunHonest(start: State, inputs: seq<Input>)
    requires Honest(start)
    ensures Honest(Run(start, inputs))
  {
    if inputs != [] {
      RunHonest(start, inputs[..|inputs| - 1]);
      var s := Run(start, inputs[..|inputs| - 1]);
      match inputs[|inputs| - 1]
      case Update(now, left) => UpdateHonest(s, now, left);
      case Cancel(now) => CancelHonest(s, now);
      case Timer(now) => TimerHonest(s, now);
    }
  }

  /** For any stream: no warning before it is due, at most one per schedule, and cautions and clears
    * strictly alternate within a schedule, beginning with a caution. */
  lemma {:induction false} NoticesAreHonest(far: int, warnSecs: nat, cautionSecs: nat, inputs: seq<Input>)
    ensures
      var s := Run(Idle(far, warnSecs, cautionSecs), inputs);
      && (forall i | 0 <= i < |s.shown| && s.shown[i].notice.Warned? :: s.shown[i].notice.due <= s.shown[i].at)
      && (forall serial :: Warnings(s.shown, serial) <= 1)
      && Alternates(s.shown)
  {
    RunHonest(Idle(far, warnSecs, cautionSecs), inputs);
  }

  /** What an update does after any stream. The end is so many seconds from now, and the timer is set for the warning
    * time before it, or for now when that has passed. The seconds left are shown when they reach the caution limit
    * and the schedule shows no caution yet; a shown caution is cleared when they rise above it; otherwise nothing is
    * shown. So a caution is up exactly while the last update was within the limit. */
  lemma {:induction false} UpdateExactly(far: int, warnSecs: nat, cautionSecs: nat, inputs: seq<Input>, now: int,
                                       left: nat)
    ensures
      var s := Run(Idle(far, warnSecs, cautionSecs), inputs);
      var after := Step(s, Update(now, left));
      var cautioned := s.schedule.Some? && LastMark(s.shown, s.serial) == Some(true);
      && after.schedule.Some? && after.schedule.value.finalAt == now + left * 1_000_000_000
      && after.timer == now + (if left > warnSecs then left - warnSecs else 0) * 1_000_000_000
      && after.serial == (if s.schedule.Some? then s.serial else s.serial + 1)
      && after.shown == s.shown +
           (if left <= cautionSecs && !cautioned then [Shown(now, CautionShown(left), after.serial)]
            else if left > cautionSecs && cautioned then [Shown(now, CautionCleared, after.serial)]
            else [])
      && (LastMark(after.shown, after.serial) == Some(true) <==> left <= cautionSecs)
  {
    var s := Run(Idle(far, warnSecs, cautionSecs), inputs);
    RunConfig(far, warnSecs, cautionSecs, inputs);
    RunHonest(Idle(far, warnSecs, cautionSecs), inputs);
    UpdateHonest(s, now, left);
  }

  lemma {:induction false} RunConfig(far: int, warnSecs: nat, cautionSecs: nat, inputs: seq<Input>)
    ensures
      var s := Run(Idle(far, warnSecs, cautionSecs), inputs);
      s.warnSecs == warnSecs && s.cautionSecs == cautionSecs && s.farInFuture == far
  {
    if inputs != [] {
      RunConfig(far, warnSecs, cautionSecs, inputs[..|inputs| - 1]);
    }
  }

  /** A cancellation drops the schedule and hides what is shown. A timer fire without a schedule, or before its time,
    * shows nothing, and a timer that has fired is put off until an update sets it. */
  lemma {:induction false} CancelExactly(far: int, warnSecs: nat, cautionSecs: nat, inputs: seq<Input>, now: int)
    ensures
      var s := Run(Idle(far, warnSecs, cautionSecs), inputs);
      && Step(s, Cancel(now)).schedule == None && Step(s, Cancel(now)).timer == far
      && Step(s, Cancel(now)).shown == s.shown + [Shown(now, Hidden, s.serial)]
      && (s.schedule.None? || now < s.timer ==>
            Step(s, Timer(now)).shown == s.shown && Step(s, Timer(now)).schedule == s.schedule)
      && Step(s, Timer(now)).timer == if now < s.timer then s.timer else far
  {
    AlwaysKept(far, warnSecs, cautionSecs, inputs);
    RunConfig(far, warnSecs, cautionSecs, inputs);
  }

  // ---- Warnings do not crowd ------------------------------------------------------------------

  ghost predicate Apart(shown: seq<Shown>, gap: int) {
    forall i, j | 0 <= i < j < |shown| && shown[i].notice.Warned? && shown[j].notice.Warned? ::
      shown[i].at + gap <= shown[j].at
  }

  /** Every warning so far lies before `clock`, and a gap before the warning still to come. */
  ghost predicate Gapped(s: State, clock: int, gap: int) {
    && Apart(s.shown, gap)
    && (forall i | 0 <= i < |s.shown| :: s.shown[i].at <= clock)
    && (s.schedule.Some? ==>
          forall i | 0 <= i < |s.shown| && s.shown[i].notice.Warned? :: s.shown[i].at + gap <= s.schedule.value.warnAt)
  }

  lemma {:induction false} StepGapped(s: State, clock: int, input: Input, gap: int)
    requires Kept(s) && Gapped(s, clock, gap) && clock <= input.now && 0 <= gap
    requires input.Update? ==> Nanos(s.warnSecs) + gap <= Nanos(input.leftSecs)
    ensures Gapped(Step(s, input), input.now, gap)
  {
    var after := Step(s, input);
    match input
    case Update(now, left) =>
      assert after.schedule.value.warnAt >= now + gap;
      assert |after.shown| <= |s.shown| + 1;
    case Cancel(_) =>
    case Timer(_) =>
  }

  lemma {:induction false} RunGapped(far: int, warnSecs: nat, cautionSecs: nat, inputs: seq<Input>, clock: int,
                                     gap: int)
    requires Timely(inputs) && 0 <= gap
    requires forall i | 0 <= i < |inputs| && inputs[i].Update? :: Nanos(warnSecs) + gap <= Nanos(inputs[i].leftSecs)
    requires inputs == [] || clock == inputs[|inputs| - 1].now
    ensures
      var s := Run(Idle(far, warnSecs, cautionSecs), inputs);
      s.warnSecs == warnSecs && Gapped(s, clock, gap)
  {
    if inputs != [] {
      var n := |inputs| - 1;
      var earlier := if n == 0 then clock else inputs[n - 1].now;
      RunGapped(far, warnSecs, cautionSecs, inputs[..n], earlier, gap);
      AlwaysKept(far, warnSecs, cautionSecs, inputs[..n]);
      StepGapped(Run(Idle(far, warnSecs, cautionSecs), inputs[..n]), earlier, inputs[n], gap);
    }
  }

  /** The agent reports whole minutes, at least one, and warns 45 seconds ahead: warnings are 15 seconds apart or
    * more. */
  lemma {:induction false} WarningsFifteenSecondsApart(far: int, cautionSecs: nat, inputs: seq<Input>)
    requires Timely(inputs)
    requires forall i | 0 <= i < |inputs| && inputs[i].Update? :: inputs[i].leftSecs % 60 == 0 && inputs[i].leftSecs > 0
    ensures Apart(Run(Idle(far, 45, cautionSecs), inputs).shown, Nanos(15))
  {
    RunGapped(far, 45, cautionSecs, inputs, if inputs == [] then 0 else inputs[|inputs| - 1].now, Nanos(15));
  }

  // ---- The objects ----------------------------------------------------------------------------

  class CountdownSchedule {
    var finalAt: int
    var warnAt: int
    const warnSecs: nat
    const cautionSecs: nat
    var cautionNotified: bool
    var warnNotified: bool

    function View(): Sched
      reads this
    {
      Sched(finalAt, warnAt, warnSecs, cautionSecs, cautionNotified, warnNotified)
    }

    constructor (now: int, warnSecs: nat, cautionSecs: nat)
      ensures View() == Sched(now, now, warnSecs, cautionSecs, false, false)
    {
      finalAt, warnAt := now, now;
      this.warnSecs, this.cautionSecs := warnSecs, cautionSecs;
      cautionNotified, warnNotified := false, false;
    }

    static method New(now: int, leftSecs: nat, warnSecs: nat, cautionSecs: nat)
      returns (sched: CountdownSchedule, action: Option<Action>)
      ensures fresh(sched) && (sched.View(), action) == Created(now, leftSecs, warnSecs, cautionSecs)
    {
      sched := new CountdownSchedule(now, warnSecs, cautionSecs);
      action := sched.UpdateDeadline(now, leftSecs);
    }

    method UpdateDeadline(now: int, leftSecs: nat) returns (action: Option<Action>)
      modifies this
      ensures (View(), action) == Updated(old(View()), now, leftSecs)
    {
      finalAt := now + Nanos(leftSecs);
      warnAt := if leftSecs > warnSecs then finalAt - Nanos(warnSecs) else now;
      action := None;
      if leftSecs > cautionSecs {
        if cautionNotified {
          cautionNotified := false;
          action := Some(Clear);
        } else {
          cautionNotified := false;
        }
      }
      if leftSecs > warnSecs {
        warnNotified := false;
      }
      if leftSecs <= cautionSecs && !cautionNotified {
        cautionNotified := true;
        action := Some(Caution(leftSecs));
      }
    }

    /** Warn if it is time, and say when to look again. */
    method Fire(now: int) returns (warned: bool, next: Option<int>)
      modifies this
      ensures warned <==> !old(warnNotified) && warnAt <= now
      ensures View() == old(View()).(warnNotified := old(warnNotified) || warned)
      ensures next == NextDeadline(View(), now)
    {
      warned := false;
      if !warnNotified && warnAt <= now {
        warnNotified := true;
        warned := true;
      }
      next := NextDeadline(View(), now);
    }
  }

  class CountdownTask {
    var schedule: CountdownSchedule?
    var timer: int
    const farInFuture: int
    const warnSecs: nat
    const cautionSecs: nat
    /** What the platform was asked to show so far, and how many schedules there were. */
    ghost var shown: seq<Shown>
    ghost var serial: nat

    ghost function Now(): State
      reads this, schedule
    {
      State(if schedule == null then None else Some(schedule.View()), timer, farInFuture, warnSecs, cautionSecs,
            shown, serial)
    }

    constructor (intervalSecs: nat, warnSecs: nat, cautionSecs: nat, now: int)
      ensures Now() == Idle(now + Nanos(intervalSecs * 1000), warnSecs, cautionSecs)
    {
      schedule := null;
      timer, farInFuture := now + Nanos(intervalSecs * 1000), now + Nanos(intervalSecs * 1000);
      this.warnSecs, this.cautionSecs := warnSecs, cautionSecs;
      shown, serial := [], 0;
    }

    /** The main loop's report of the minutes left. */
    method Tick(now: int, leftMinutes: nat)
      modifies this, schedule
      ensures Now() == Step(old(Now()), Update(now, 60 * leftMinutes))
      ensures schedule != null && (schedule == old(schedule) || fresh(schedule))
    {
      OnUpdate(now, leftMinutes * 60);
    }

    /** An update command. */
    method OnUpdate(now: int, leftSecs: nat)
      modifies this, schedule
      ensures Now() == Step(old(Now()), Update(now, leftSecs))
      ensures schedule != null && (schedule == old(schedule) || fresh(schedule))
    {
      var action: Option<Action>;
      if schedule != null {
        action := schedule.UpdateDeadline(now, leftSecs);
      } else {
        var sched;
        sched, action := CountdownSchedule.New(now, leftSecs, warnSecs, cautionSecs);
        schedule := sched;
        serial := serial + 1;
      }
      match action {
        case Some(Caution(secs)) => Show(now, CautionShown(secs));
        case Some(Clear) => Show(now, CautionCleared);
        case None =>
      }
      var next := NextDeadline(schedule.View(), now);
      timer := if next.Some? then next.value else farInFuture;
    }

    method OnCancel(now: int)
      modifies this
      ensures Now() == Step(old(Now()), Cancel(now))
    {
      schedule := null;
      Show(now, Hidden);
      timer := farInFuture;
    }

    /** The timer, which fires no earlier than it was set for. */
    method OnTimer(now: int)
      requires timer <= now
      modifies this, schedule
      ensures Now() == Step(old(Now()), Timer(now))
    {
      if schedule != null {
        ghost var due := schedule.warnAt;
        var warned, next := schedule.Fire(now);
        if warned {
          Show(now, Warned(due));
        }
        match next {
          case Some(deadline) =>
            timer := deadline;
          case None =>
            timer := farInFuture;
            schedule := null;
        }
      } else {
        timer := farInFuture;
      }
    }

    ghost method Show(now: int, notice: Notice)
      modifies this`shown
      ensures shown == old(shown) + [Shown(now, notice, serial)]
    {
      shown := shown + [Shown(now, notice, serial)];
    }
  }
}
