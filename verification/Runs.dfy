/** Properties of whole runs of the ledger: the tables are a log of what was committed, the
  * order of independent transactions does not matter, and submissions are settled once. */
module Runs {
  import opened Prelude
  import opened Ledger
  import opened History

  // ---- The tables are the log -------------------------------------------------------------

  function RewardRows(e: Event): seq<Reward> {
    match e
    case Granted(child, task, minutes, borrowed, _) => [Reward(child, task, minutes, borrowed)]
    case Approved(_, child, task, minutes, _) => [Reward(child, task, minutes, false)]
    case _ => []
  }

  function CompletionRows(e: Event): seq<Completion> {
    match e
    case Granted(_, _, _, _, Some(row)) => [row]
    case Approved(_, _, _, _, row) => [row]
    case _ => []
  }

  function UsageRows(e: Event): set<UsageRow> {
    if e.Charged? then e.rows else {}
  }

  function RewardLog(events: seq<Event>): seq<Reward> {
    if events == [] then [] else RewardLog(events[..|events| - 1]) + RewardRows(events[|events| - 1])
  }

  function CompletionLog(events: seq<Event>): seq<Completion> {
    if events == [] then [] else CompletionLog(events[..|events| - 1]) + CompletionRows(events[|events| - 1])
  }

  function UsageLog(events: seq<Event>): set<UsageRow> {
    if events == [] then {} else UsageLog(events[..|events| - 1]) + UsageRows(events[|events| - 1])
  }

  lemma LogSnoc(events: seq<Event>, e: Event)
    ensures RewardLog(events + [e]) == RewardLog(events) + RewardRows(e)
    ensures CompletionLog(events + [e]) == CompletionLog(events) + CompletionRows(e)
    ensures UsageLog(events + [e]) == UsageLog(events) + UsageRows(e)
  {
    assert (events + [e])[..|events|] == events;
  }

  /** The tables after a step, from the event. */
  ghost predicate Logged(db: Db, after: Db, e: Event) {
    && after.rewards == db.rewards + RewardRows(e)
    && after.completions == db.completions + CompletionRows(e)
    && after.usage == db.usage + UsageRows(e)
  }

  lemma RewardLogs(db: Db, request: Request)
    requires request.PostReward?
    ensures Logged(db, Step(db, request).0, Step(db, request).1)
  {
    var (after, e) := Step(db, request);
    if e.Granted? {
      assert AddReward(db, e.child, e.minutes, e.task, e.borrowed, e.completion) == Ok(after);
    }
  }

  lemma UsageLogs(db: Db, request: Request)
    requires request.PostUsage?
    ensures Logged(db, Step(db, request).0, Step(db, request).1)
  {
    var (after, e) := Step(db, request);
    if e.Charged? {
      assert after.usage == db.usage + (e.rows - db.usage);
    }
  }

  lemma ApprovalLogs(db: Db, request: Request)
    requires request.PostApproval?
    ensures Logged(db, Step(db, request).0, Step(db, request).1)
  {
    var (after, e) := Step(db, request);
    if e.Approved? {
      assert after.rewards == Grant(db, e.child, e.task, e.minutes, false).rewards;
    }
  }

  lemma StepLogs(db: Db, request: Request)
    ensures Logged(db, Step(db, request).0, Step(db, request).1)
  {
    match request
    case PostReward(_, _, _, _, _, _) => RewardLogs(db, request);
    case PostUsage(_, _, _, _) => UsageLogs(db, request);
    case PostApproval(_, _, _) => ApprovalLogs(db, request);
    case _ =>
  }

  /** Every reward row, completion row and usage row was committed by exactly the events of the run. */
  lemma {:induction false} TablesAreTheLog(requests: seq<Request>)
    ensures
      var (db, events) := Run(requests);
      && db.rewards == RewardLog(events)
      && db.completions == CompletionLog(events)
      && db.usage == UsageLog(events)
  {
    if requests != [] {
      var n := |requests| - 1;
      TablesAreTheLog(requests[..n]);
      var before := Run(requests[..n]);
      StepLogs(before.0, requests[n]);
      LogSnoc(before.1, Step(before.0, requests[n]).1);
    }
  }

  // ---- Order independence -----------------------------------------------------------------

  /** A loan or an earning; penalties are not moves of the debt walk. */
  datatype Move = Move(minutes: int, borrowed: bool)

  function Moves(rewards: seq<Reward>, c: ChildId): seq<Move> {
    if rewards == [] then []
    else
      var n := |rewards| - 1;
      var r := rewards[n];
      Moves(rewards[..n], c)
      + if r.child == c && (r.borrowed || 0 <= r.minutes) then [Move(r.minutes, r.borrowed)] else []
  }

  function MoveSteps(moves: seq<Move>): seq<int> {
    if moves == [] then []
    else
      var m := moves[|moves| - 1];
      MoveSteps(moves[..|moves| - 1]) + [if m.borrowed then -m.minutes else m.minutes]
  }

  function MovesEarned(moves: seq<Move>): int {
    if moves == [] then 0
    else
      var m := moves[|moves| - 1];
      MovesEarned(moves[..|moves| - 1]) + if m.borrowed then 0 else m.minutes
  }

  lemma MovesSnoc(moves: seq<Move>, m: Move)
    ensures MoveSteps(moves + [m]) == MoveSteps(moves) + [if m.borrowed then -m.minutes else m.minutes]
    ensures MovesEarned(moves + [m]) == MovesEarned(moves) + if m.borrowed then 0 else m.minutes
  {
    assert (moves + [m])[..|moves|] == moves;
  }

  /** One more reward, as a move or a penalty. */
  lemma MoveOrPenalty(rewards: seq<Reward>, r: Reward, c: ChildId)
    ensures Moves(rewards + [r], c)
         == Moves(rewards, c)
            + if r.child == c && (r.borrowed || 0 <= r.minutes) then [Move(r.minutes, r.borrowed)] else []
    ensures Penalties(rewards + [r], c)
         == Penalties(rewards, c) + if r.child == c && !r.borrowed && r.minutes < 0 then r.minutes else 0
  {
    assert (rewards + [r])[..|rewards|] == rewards;
  }

  lemma MovesDecideSnoc(rewards: seq<Reward>, r: Reward, c: ChildId)
    requires Reflected(Walk(rewards, c)) == Reflected(MoveSteps(Moves(rewards, c)))
    requires Earned(rewards, c) == MovesEarned(Moves(rewards, c)) + Penalties(rewards, c)
    ensures Reflected(Walk(rewards + [r], c)) == Reflected(MoveSteps(Moves(rewards + [r], c)))
    ensures Earned(rewards + [r], c) == MovesEarned(Moves(rewards + [r], c)) + Penalties(rewards + [r], c)
  {
    var w, moves := Walk(rewards, c), Moves(rewards, c);
    WalkSnoc(rewards, r, c);
    MoveOrPenalty(rewards, r, c);
    if r.child != c {
      assert w + [] == w && moves + [] == moves;
    } else {
      ReflectedSnoc(w, WalkStep(r));
      if r.borrowed || 0 <= r.minutes {
        MovesSnoc(moves, Move(r.minutes, r.borrowed));
        ReflectedSnoc(MoveSteps(moves), WalkStep(r));
      } else {
        assert moves + [] == moves;
      }
    }
  }

  lemma {:induction false} MovesDecide(rewards: seq<Reward>, c: ChildId)
    ensures Reflected(Walk(rewards, c)) == Reflected(MoveSteps(Moves(rewards, c)))
    ensures Earned(rewards, c) == MovesEarned(Moves(rewards, c)) + Penalties(rewards, c)
  {
    if rewards != [] {
      var n := |rewards| - 1;
      MovesDecide(rewards[..n], c);
      MovesDecideSnoc(rewards[..n], rewards[n], c);
      assert rewards == rewards[..n] + [rewards[n]];
    }
  }

  /** The child exists after both runs, and they lend and earn in the same order, impose the same penalties
    * in total and charge the same rows. */
  ghost predicate SameFor(run1: (Db, seq<Event>), run2: (Db, seq<Event>), c: ChildId) {
    var (log1, log2) := (RewardLog(run1.1), RewardLog(run2.1));
    && c in run1.0.balances && c in run2.0.balances
    && Moves(log1, c) == Moves(log2, c) && Penalties(log1, c) == Penalties(log2, c)
    && UsageOf(UsageLog(run1.1), c) == UsageOf(UsageLog(run2.1), c)
  }

  /** Such runs end alike, in whatever batches the usage came and however it was interleaved. */
  lemma {:induction false} OrderIndependence(requests1: seq<Request>, requests2: seq<Request>, c: ChildId)
    ensures SameFor(Run(requests1), Run(requests2), c) ==>
      Run(requests1).0.balances[c] == Run(requests2).0.balances[c]
  {
    if SameFor(Run(requests1), Run(requests2), c) {
      TablesAreTheLog(requests1);
      TablesAreTheLog(requests2);
      ConservationAndAudit(requests1);
      ConservationAndAudit(requests2);
      assert Accounted(Run(requests1).0, c) && Accounted(Run(requests2).0, c);
      MovesDecide(Run(requests1).0.rewards, c);
      MovesDecide(Run(requests2).0.rewards, c);
    }
  }

  function EventPenalty(e: Event, c: ChildId): int {
    Penalties(RewardRows(e), c)
  }

  function EventPenalties(events: seq<Event>, c: ChildId): int {
    if events == [] then 0
    else EventPenalties(events[..|events| - 1], c) + EventPenalty(events[|events| - 1], c)
  }

  lemma {:induction false} PenaltiesConcat(a: seq<Reward>, b: seq<Reward>, c: ChildId)
    ensures Penalties(a + b, c) == Penalties(a, c) + Penalties(b, c)
  {
    if b == [] {
      assert a + b == a;
    } else {
      var n := |b| - 1;
      PenaltiesConcat(a, b[..n], c);
      assert (a + b)[..|a + b| - 1] == a + b[..n];
    }
  }

  lemma {:induction false} PenaltiesOfLog(events: seq<Event>, c: ChildId)
    ensures Penalties(RewardLog(events), c) == EventPenalties(events, c)
  {
    if events != [] {
      var n := |events| - 1;
      PenaltiesOfLog(events[..n], c);
      PenaltiesConcat(RewardLog(events[..n]), RewardRows(events[n]), c);
    }
  }

  lemma EventPenaltiesSnoc(events: seq<Event>, e: Event, c: ChildId)
    ensures EventPenalties(events + [e], c) == EventPenalties(events, c) + EventPenalty(e, c)
  {
    assert (events + [e])[..|events|] == events;
  }

  lemma {:induction false} EventPenaltiesConcat(a: seq<Event>, b: seq<Event>, c: ChildId)
    ensures EventPenalties(a + b, c) == EventPenalties(a, c) + EventPenalties(b, c)
  {
    if b == [] {
      assert a + b == a;
    } else {
      var n := |b| - 1;
      EventPenaltiesConcat(a, b[..n], c);
      Associative(a, b[..n], [b[n]]);
      assert b == b[..n] + [b[n]];
      EventPenaltiesSnoc(a + b[..n], b[n], c);
    }
  }

  lemma EventPenaltiesRemove(events: seq<Event>, i: nat, c: ChildId)
    requires i < |events|
    ensures EventPenalties(events, c) == EventPenalties(events[..i] + events[i + 1..], c) + EventPenalty(events[i], c)
  {
    var a, b := events[..i], events[i + 1..];
    assert events == a + [events[i]] + b;
    EventPenaltiesConcat(a + [events[i]], b, c);
    EventPenaltiesSnoc(a, events[i], c);
    EventPenaltiesConcat(a, b, c);
  }

  lemma MultisetSplit(events: seq<Event>, i: nat)
    requires i < |events|
    ensures multiset(events[..i] + events[i + 1..]) == multiset(events) - multiset{events[i]}
  {
    assert events == events[..i] + [events[i]] + events[i + 1..];
    assert multiset(events) == multiset(events[..i]) + multiset{events[i]} + multiset(events[i + 1..]);
  }

  lemma {:induction false} PenaltiesPermute(events1: seq<Event>, events2: seq<Event>, c: ChildId)
    requires multiset(events1) == multiset(events2)
    ensures EventPenalties(events1, c) == EventPenalties(events2, c)
    decreases |events1|
  {
    if events1 == [] {
      assert |multiset(events2)| == 0;
    } else {
      var n := |events1| - 1;
      var e := events1[n];
      assert events1 == events1[..n] + [e];
      assert e in multiset(events2);
      var i :| 0 <= i < |events2| && events2[i] == e;
      var rest := events2[..i] + events2[i + 1..];
      MultisetSplit(events1, n);
      MultisetSplit(events2, i);
      assert events1[..n] + events1[n + 1..] == events1[..n];
      PenaltiesPermute(events1[..n], rest, c);
      EventPenaltiesRemove(events2, i, c);
    }
  }

  lemma {:induction false} InUsageLog(events: seq<Event>, row: UsageRow)
    ensures row in UsageLog(events) <==> exists e :: e in events && row in UsageRows(e)
  {
    if events != [] {
      var n := |events| - 1;
      InUsageLog(events[..n], row);
      assert events == events[..n] + [events[n]];
    }
  }

  /** The child exists after both runs, which committed the same transactions in some order and the child's
    * loans and earnings in the same relative order. */
  ghost predicate PermutedFor(run1: (Db, seq<Event>), run2: (Db, seq<Event>), c: ChildId) {
    && c in run1.0.balances && c in run2.0.balances
    && multiset(run1.1) == multiset(run2.1)
    && Moves(RewardLog(run1.1), c) == Moves(RewardLog(run2.1), c)
  }

  lemma UsagePermute(events1: seq<Event>, events2: seq<Event>)
    requires multiset(events1) == multiset(events2)
    ensures UsageLog(events1) == UsageLog(events2)
  {
    forall e ensures e in events1 <==> e in events2 {
      assert e in events1 <==> e in multiset(events1);
      assert e in events2 <==> e in multiset(events2);
    }
    forall row ensures row in UsageLog(events1) <==> row in UsageLog(events2) {
      InUsageLog(events1, row);
      InUsageLog(events2, row);
    }
  }

  /** Two serial orders of the same transactions that keep a child's loans and earnings in the same relative
    * order leave that child with the same two columns. */
  lemma {:induction false} PermutedRunsAgree(requests1: seq<Request>, requests2: seq<Request>, c: ChildId)
    ensures PermutedFor(Run(requests1), Run(requests2), c) ==>
      Run(requests1).0.balances[c] == Run(requests2).0.balances[c]
  {
    var events1, events2 := Run(requests1).1, Run(requests2).1;
    if PermutedFor(Run(requests1), Run(requests2), c) {
      PenaltiesPermute(events1, events2, c);
      PenaltiesOfLog(events1, c);
      PenaltiesOfLog(events2, c);
      UsagePermute(events1, events2);
      OrderIndependence(requests1, requests2, c);
    }
  }

  // ---- The life of a submission -----------------------------------------------------------

  function ApprovedIds(events: seq<Event>): multiset<int> {
    if events == [] then multiset{}
    else
      var e := events[|events| - 1];
      ApprovedIds(events[..|events| - 1]) + if e.Approved? then multiset{e.id} else multiset{}
  }

  function DiscardedIds(events: seq<Event>): multiset<int> {
    if events == [] then multiset{}
    else
      var e := events[|events| - 1];
      DiscardedIds(events[..|events| - 1]) + if e.Discarded? then multiset{e.id} else multiset{}
  }

  /** id counted once if it was ever handed out, wherever it is now. */
  ghost predicate Settled(db: Db, approved: multiset<int>, discarded: multiset<int>, id: int) {
    (if id in db.submissions then 1 else 0) + approved[id] + discarded[id]
    == if 1 <= id < db.nextSubmission then 1 else 0
  }

  /** The pending submissions change exactly as the event says. */
  lemma StepSubmissions(db: Db, request: Request)
    ensures
      var (after, e) := Step(db, request);
      match e
      case Submitted(id, child, Some(task)) =>
        && id == db.nextSubmission && after.nextSubmission == id + 1
        && after.submissions == db.submissions[id := Submission(child, task)]
      case Submitted(_, _, None) => false
      case Approved(id, child, task, _, _) =>
        && id in db.submissions && after.submissions == db.submissions - {id}
        && child == db.submissions[id].child && task == Some(db.submissions[id].task)
        && after.nextSubmission == db.nextSubmission
      case Discarded(id) =>
        && id in db.submissions && after.submissions == db.submissions - {id}
        && after.nextSubmission == db.nextSubmission
      case _ =>
        after.submissions == db.submissions && after.nextSubmission == db.nextSubmission
  {
  }

  lemma EventSettles(events: seq<Event>, e: Event, id: int)
    ensures ApprovedIds(events + [e])[id] == ApprovedIds(events)[id] + if e.Approved? && e.id == id then 1 else 0
    ensures DiscardedIds(events + [e])[id] == DiscardedIds(events)[id] + if e.Discarded? && e.id == id then 1 else 0
  {
    assert (events + [e])[..|events|] == events;
  }

  lemma StepSettles(db: Db, events: seq<Event>, request: Request, id: int)
    requires 1 <= db.nextSubmission
    requires Settled(db, ApprovedIds(events), DiscardedIds(events), id)
    requires Settled(db, ApprovedIds(events), DiscardedIds(events), db.nextSubmission)
    ensures
      var (after, e) := Step(db, request);
      && 1 <= after.nextSubmission
      && Settled(after, ApprovedIds(events + [e]), DiscardedIds(events + [e]), id)
  {
    StepSubmissions(db, request);
    EventSettles(events, Step(db, request).1, id);
  }

  lemma {:induction false} SettledOnce(requests: seq<Request>)
    ensures
      var (db, events) := Run(requests);
      1 <= db.nextSubmission && forall id :: Settled(db, ApprovedIds(events), DiscardedIds(events), id)
  {
    if requests != [] {
      var n := |requests| - 1;
      SettledOnce(requests[..n]);
      var (db, events) := Run(requests[..n]);
      forall id
        ensures Settled(Run(requests).0, ApprovedIds(Run(requests).1), DiscardedIds(Run(requests).1), id)
      {
        StepSettles(db, events, requests[n], id);
      }
      StepSettles(db, events, requests[n], 0);
    }
  }

  /** Every id ever handed out is pending, approved once or discarded once, and never two of these;
    * so the submitted are as many as the pending, the approved and the discarded together. */
  lemma {:induction false} SubmissionLifecycle(requests: seq<Request>)
    ensures
      var (db, events) := Run(requests);
      && multiset(db.submissions.Keys) + ApprovedIds(events) + DiscardedIds(events)
         == multiset(Range(1, db.nextSubmission))
      && |db.submissions.Keys| + |ApprovedIds(events)| + |DiscardedIds(events)| == db.nextSubmission - 1
  {
    SettledOnce(requests);
    var (db, events) := Run(requests);
    var all := multiset(db.submissions.Keys) + ApprovedIds(events) + DiscardedIds(events);
    forall id ensures all[id] == multiset(Range(1, db.nextSubmission))[id] {
      assert Settled(db, ApprovedIds(events), DiscardedIds(events), id);
    }
    assert all == multiset(Range(1, db.nextSubmission));
    assert |all| == |Range(1, db.nextSubmission)|;
  }

  /** The next id is one no submission ever had. */
  lemma {:induction false} NextIdIsNew(requests: seq<Request>)
    ensures
      var (db, events) := Run(requests);
      && db.nextSubmission !in db.submissions
      && db.nextSubmission !in ApprovedIds(events) && db.nextSubmission !in DiscardedIds(events)
  {
    SettledOnce(requests);
    var (db, events) := Run(requests);
    assert Settled(db, ApprovedIds(events), DiscardedIds(events), db.nextSubmission);
  }

  /** This child submitted this task under this id at some point before n. */
  ghost predicate SubmittedBefore(events: seq<Event>, n: nat, id: int, child: ChildId, task: Option<TaskId>) {
    exists j :: 0 <= j < n && j < |events| && events[j] == Submitted(id, child, task)
  }

  ghost predicate PendingAsSubmitted(db: Db, events: seq<Event>) {
    forall id | id in db.submissions ::
      SubmittedBefore(events, |events|, id, db.submissions[id].child, Some(db.submissions[id].task))
  }

  ghost predicate ApprovedAsSubmitted(events: seq<Event>) {
    forall i | 0 <= i < |events| && events[i].Approved? ::
      SubmittedBefore(events, i, events[i].id, events[i].child, events[i].task)
  }

  lemma SubmittedSnoc(events: seq<Event>, e: Event, n: nat, id: int, child: ChildId, task: Option<TaskId>)
    requires n <= |events| && SubmittedBefore(events, n, id, child, task)
    ensures SubmittedBefore(events + [e], n, id, child, task)
    ensures SubmittedBefore(events + [e], |events| + 1, id, child, task)
  {
    var j :| 0 <= j < n && events[j] == Submitted(id, child, task);
    assert (events + [e])[j] == events[j];
  }

  lemma StepAsSubmitted(db: Db, events: seq<Event>, request: Request)
    requires PendingAsSubmitted(db, events) && ApprovedAsSubmitted(events)
    ensures
      var (after, e) := Step(db, request);
      PendingAsSubmitted(after, events + [e]) && ApprovedAsSubmitted(events + [e])
  {
    StepSubmissions(db, request);
    var (after, e) := Step(db, request);
    var more := events + [e];
    forall id | id in after.submissions
      ensures SubmittedBefore(more, |more|, id, after.submissions[id].child, Some(after.submissions[id].task))
    {
      if e.Submitted? && id == e.id {
        assert more[|events|] == Submitted(id, after.submissions[id].child, Some(after.submissions[id].task));
      } else {
        SubmittedSnoc(events, e, |events|, id, db.submissions[id].child, Some(db.submissions[id].task));
      }
    }
    forall i | 0 <= i < |more| && more[i].Approved?
      ensures SubmittedBefore(more, i, more[i].id, more[i].child, more[i].task)
    {
      SubmittedSnoc(events, e, i, more[i].id, more[i].child, more[i].task);
    }
  }

  lemma {:induction false} RunAsSubmitted(requests: seq<Request>)
    ensures PendingAsSubmitted(Run(requests).0, Run(requests).1) && ApprovedAsSubmitted(Run(requests).1)
  {
    if requests != [] {
      var n := |requests| - 1;
      RunAsSubmitted(requests[..n]);
      StepAsSubmitted(Run(requests[..n]).0, Run(requests[..n]).1, requests[n]);
    }
  }

  /** In every run an approval rewards and completes, for the child and with the task that were submitted
    * under its id earlier on. */
  lemma {:induction false} ApprovalsHonourSubmissions(requests: seq<Request>, i: nat)
    requires i < |Run(requests).1| && Run(requests).1[i].Approved?
    ensures
      var events := Run(requests).1;
      var e := events[i];
      && SubmittedBefore(events, i, e.id, e.child, e.task)
      && RewardRows(e) == [Reward(e.child, e.task, e.minutes, false)]
      && RewardRows(e)[0] in Run(requests).0.rewards
      && CompletionRows(e) == [e.done] && e.done in Run(requests).0.completions
  {
    RunAsSubmitted(requests);
    TablesAreTheLog(requests);
    LogHolds(Run(requests).1, i);
  }

  lemma {:induction false} LogHolds(events: seq<Event>, i: nat)
    requires i < |events|
    ensures forall r | r in RewardRows(events[i]) :: r in RewardLog(events)
    ensures forall r | r in CompletionRows(events[i]) :: r in CompletionLog(events)
  {
    if i < |events| - 1 {
      LogHolds(events[..|events| - 1], i);
    }
  }

  /** An approval settles a pending submission of a known task and child: one reward row, one
    * completion row and one change of that child's balance. Any other approval changes nothing. */
  lemma {:induction false} ApprovalIsAllOrNothing(db: Db, id: int, user: string, now: int)
    ensures
      var (after, e) := Step(db, PostApproval(id, user, now));
      if id in db.submissions && db.submissions[id].task in db.tasks && db.submissions[id].child in db.balances then
        var s := db.submissions[id];
        && e.Approved? && e.id == id
        && id !in after.submissions
        && after.rewards == db.rewards + [Reward(s.child, Some(s.task), db.tasks[s.task].minutes, false)]
        && after.completions == db.completions + [Completion(s.child, s.task, user, now)]
        && after.balances.Keys == db.balances.Keys
        && (forall c | c in db.balances && c != s.child :: after.balances[c] == db.balances[c])
      else
        after == db && e == Nothing
  {
  }

  /** A completion row of this child for this task, in the same UTC day. */
  ghost predicate DoneToday(db: Db, child: ChildId, task: TaskId, now: int) {
    exists row :: row in db.completions && row.child == child && row.task == task && row.doneAt / 86400 == now / 86400
  }

  lemma SameDay(row: Completion, child: ChildId, now: int)
    ensures DoneOnDayOf(row, child, now) <==> row.child == child && row.doneAt / 86400 == now / 86400
  {
  }

  /** Required tasks are done today just when each has been completed by this child in the current UTC day. */
  lemma RequiredTasksToday(db: Db, child: ChildId, now: int)
    ensures AllRequiredTasksDoneToday(db, child, now) <==>
      forall t | t in db.tasks && db.tasks[t].required :: DoneToday(db, child, t, now)
  {
    var completed := set row | row in db.completions && DoneOnDayOf(row, child, now) :: row.task;
    forall t ensures t in completed <==> DoneToday(db, child, t, now) {
      if DoneToday(db, child, t, now) {
        var row :| row in db.completions && row.child == child && row.task == t && row.doneAt / 86400 == now / 86400;
        SameDay(row, child, now);
      }
      if t in completed {
        var row :| row in db.completions && DoneOnDayOf(row, child, now) && row.task == t;
        SameDay(row, child, now);
      }
    }
    assert forall t | t in RequiredTasks(db) :: t in db.tasks && db.tasks[t].required;
    assert forall t | t in db.tasks && db.tasks[t].required :: t in RequiredTasks(db);
  }
}
