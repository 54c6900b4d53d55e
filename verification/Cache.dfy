/** The per-child cache slot against the database, at the granularity of lock and commit.
  *
  * A reward or heartbeat takes the child's mutex, commits, writes the slot and lets go; a remaining
  * or SSE-snapshot request takes it, reads the row if the slot is empty, and lets go. An approval
  * commits first and only then takes the mutex to write what it read.
  */
module Cache {
  import opened Prelude

  datatype Holder = Free | Entered(writer: bool) | Carrying(value: int) | Done

  /** One child: the stored minutes, the slot, whoever holds the mutex, and the approvals that have
    * committed but not written yet, each with the value it read. */
  datatype Cell = Cell(stored: int, slot: Option<int>, holder: Holder, approvals: map<nat, int>)

  datatype Action =
    | Enter(writer: bool)
    | Refuse
    | Commit(delta: int)
    | Fetch
    | Write
    | Release
    | ApproveCommit(approval: nat, delta: int)
    | ApproveWrite(approval: nat)

  /** One step; a step that is not enabled does nothing. */
  function Apply(cell: Cell, action: Action): Cell {
    match action
    case Enter(writer) => if cell.holder.Free? then cell.(holder := Entered(writer)) else cell
    case Refuse => if cell.holder.Entered? then cell.(holder := Free) else cell
    case Commit(delta) =>
      if cell.holder.Entered? && cell.holder.writer then
        cell.(stored := cell.stored + delta, holder := Carrying(cell.stored + delta))
      else cell
    case Fetch =>
      if cell.holder.Entered? && !cell.holder.writer then
        cell.(holder := if cell.slot.Some? then Done else Carrying(cell.stored))
      else cell
    case Write =>
      if cell.holder.Carrying? then cell.(slot := Some(cell.holder.value), holder := Done) else cell
    case Release => if cell.holder.Done? then cell.(holder := Free) else cell
    case ApproveCommit(a, delta) =>
      if a in cell.approvals then cell
      else cell.(stored := cell.stored + delta, approvals := cell.approvals[a := cell.stored + delta])
    case ApproveWrite(a) =>
      if cell.holder.Free? && a in cell.approvals then
        cell.(slot := Some(cell.approvals[a]), approvals := cell.approvals - {a})
      else cell
  }

  type State = map<ChildId, Cell>

  function Step(s: State, c: ChildId, action: Action): State {
    if c in s then s[c := Apply(s[c], action)] else s
  }

  function Run(start: State, steps: seq<(ChildId, Action)>): State {
    if steps == [] then start
    else
      var (c, action) := steps[|steps| - 1];
      Step(Run(start, steps[..|steps| - 1]), c, action)
  }

  ghost predicate Fresh(cell: Cell) {
    cell.slot == None && cell.holder == Free && cell.approvals == map[]
  }

  /** What a reader of the slot must find: nothing, or the row. */
  ghost predicate Coherent(cell: Cell) {
    cell.slot.Some? ==> cell.slot.value == cell.stored
  }

  // ---- Handlers that hold the mutex over their commit --------------------------------------

  ghost predicate Guarded(cell: Cell) {
    && cell.approvals == map[]
    && match cell.holder
       case Carrying(value) => value == cell.stored
       case _ => Coherent(cell)
  }

  /** In every interleaving of rewards, heartbeats, remaining reads and SSE snapshots over any number
    * of children, a child's slot is empty or right whenever its mutex is free. */
  lemma {:induction false} CoherentWithoutApprovals(start: State, steps: seq<(ChildId, Action)>)
    requires forall c | c in start :: Fresh(start[c])
    requires forall i | 0 <= i < |steps| :: !steps[i].1.ApproveCommit? && !steps[i].1.ApproveWrite?
    ensures Run(start, steps).Keys == start.Keys
    ensures forall c | c in start :: Guarded(Run(start, steps)[c])
    ensures forall c | c in start && Run(start, steps)[c].holder.Free? :: Coherent(Run(start, steps)[c])
  {
    if steps != [] {
      CoherentWithoutApprovals(start, steps[..|steps| - 1]);
    }
  }

  // ---- With approvals: when the slot can go wrong -------------------------------------------

  function ApplyAll(cell: Cell, actions: seq<Action>): Cell {
    if actions == [] then cell else Apply(ApplyAll(cell, actions[..|actions| - 1]), actions[|actions| - 1])
  }

  /** What one action commits to the child's row from this cell. */
  function Committed(cell: Cell, action: Action): int {
    match action
    case Commit(delta) => if cell.holder.Entered? && cell.holder.writer then delta else 0
    case ApproveCommit(a, delta) => if a in cell.approvals then 0 else delta
    case _ => 0
  }

  function CommittedBy(cell: Cell, actions: seq<Action>): int {
    if actions == [] then 0
    else
      CommittedBy(cell, actions[..|actions| - 1])
      + Committed(ApplyAll(cell, actions[..|actions| - 1]), actions[|actions| - 1])
  }

  lemma {:induction false} CarriedThrough(cell: Cell, a: nat, between: seq<Action>)
    requires a in cell.approvals
    requires ApproveWrite(a) !in between
    ensures a in ApplyAll(cell, between).approvals
    ensures ApplyAll(cell, between).approvals[a] == cell.approvals[a]
    ensures ApplyAll(cell, between).stored == cell.stored + CommittedBy(cell, between)
  {
    if between != [] {
      assert between[|between| - 1] != ApproveWrite(a);
      CarriedThrough(cell, a, between[..|between| - 1]);
    }
  }

  lemma {:induction false} StoredIsCommitted(cell: Cell, actions: seq<Action>)
    ensures ApplyAll(cell, actions).stored == cell.stored + CommittedBy(cell, actions)
  {
    if actions != [] {
      StoredIsCommitted(cell, actions[..|actions| - 1]);
    }
  }

  /** For the slot, the mutex holder and each pending approval: after how many actions its value was read. */
  datatype Reads = Reads(slot: nat, holder: nat, approvals: map<nat, nat>)

  /** The n-th action reads, hands on or drops a value. */
  function ReadsStep(before: Cell, r: Reads, action: Action, n: nat): Reads {
    match action
    case Commit(_) => if before.holder.Entered? && before.holder.writer then r.(holder := n) else r
    case Fetch => if before.holder.Entered? && !before.holder.writer then r.(holder := n) else r
    case Write => if before.holder.Carrying? then r.(slot := r.holder) else r
    case ApproveCommit(a, _) => if a in before.approvals then r else r.(approvals := r.approvals[a := n])
    case ApproveWrite(a) =>
      if before.holder.Free? && a in before.approvals && a in r.approvals then r.(slot := r.approvals[a]) else r
    case _ => r
  }

  function ReadsAfter(cell: Cell, actions: seq<Action>): Reads {
    if actions == [] then Reads(0, 0, map[])
    else
      var n := |actions|;
      ReadsStep(ApplyAll(cell, actions[..n - 1]), ReadsAfter(cell, actions[..n - 1]), actions[n - 1], n)
  }

  /** The row before the first action and after each. */
  function Rows(cell: Cell, actions: seq<Action>): (rows: seq<int>)
    ensures |rows| == |actions| + 1
  {
    (if actions == [] then [] else Rows(cell, actions[..|actions| - 1])) + [ApplyAll(cell, actions).stored]
  }

  lemma {:induction false} RowsAt(cell: Cell, actions: seq<Action>, k: nat)
    requires k <= |actions|
    ensures Rows(cell, actions)[k] == ApplyAll(cell, actions[..k]).stored
  {
    if k < |actions| {
      RowsAt(cell, actions[..|actions| - 1], k);
      assert actions[..|actions| - 1][..k] == actions[..k];
    } else {
      assert actions[..k] == actions;
    }
  }

  /** Every value in flight is the row as it was when that value was read. */
  ghost predicate AsRead(cell: Cell, r: Reads, rows: seq<int>) {
    && rows != [] && rows[|rows| - 1] == cell.stored
    && (cell.slot.Some? ==> r.slot < |rows| && cell.slot.value == rows[r.slot])
    && (cell.holder.Carrying? ==> r.holder < |rows| && cell.holder.value == rows[r.holder])
    && (forall a | a in cell.approvals ::
          a in r.approvals && r.approvals[a] < |rows| && cell.approvals[a] == rows[r.approvals[a]])
  }

  lemma StepAsRead(cell: Cell, r: Reads, rows: seq<int>, action: Action)
    requires AsRead(cell, r, rows)
    ensures AsRead(Apply(cell, action), ReadsStep(cell, r, action, |rows|), rows + [Apply(cell, action).stored])
  {
  }

  lemma {:induction false} RunAsRead(cell: Cell, actions: seq<Action>)
    requires Fresh(cell)
    ensures AsRead(ApplyAll(cell, actions), ReadsAfter(cell, actions), Rows(cell, actions))
  {
    if actions != [] {
      var n := |actions| - 1;
      RunAsRead(cell, actions[..n]);
      StepAsRead(ApplyAll(cell, actions[..n]), ReadsAfter(cell, actions[..n]), Rows(cell, actions[..n]), actions[n]);
    }
  }

  /** What was committed to the row after the first k actions. */
  ghost function CommittedSince(cell: Cell, actions: seq<Action>, k: nat): int
    requires k <= |actions|
  {
    CommittedBy(cell, actions) - CommittedBy(cell, actions[..k])
  }

  /** The actions of one child in a run over many. */
  function ActionsOf(steps: seq<(ChildId, Action)>, c: ChildId): seq<Action> {
    if steps == [] then []
    else
      var (d, action) := steps[|steps| - 1];
      ActionsOf(steps[..|steps| - 1], c) + if d == c then [action] else []
  }

  lemma {:induction false} ChildrenAreIndependent(start: State, steps: seq<(ChildId, Action)>, c: ChildId)
    requires c in start
    ensures c in Run(start, steps) && Run(start, steps)[c] == ApplyAll(start[c], ActionsOf(steps, c))
  {
    if steps != [] {
      ChildrenAreIndependent(start, steps[..|steps| - 1], c);
      var (d, action) := steps[|steps| - 1];
      var earlier := ActionsOf(steps[..|steps| - 1], c);
      if d == c {
        assert (earlier + [action])[..|earlier|] == earlier;
      } else {
        assert earlier + [] == earlier;
      }
    }
  }

  /** In every interleaving, approvals included, at any point: a filled slot is off by exactly what was
    * committed to the child since the slot's value was read, and is right if and only if that is nothing. */
  lemma {:induction false} SlotLag(start: State, steps: seq<(ChildId, Action)>, c: ChildId)
    requires c in start && Fresh(start[c])
    ensures c in Run(start, steps)
    ensures
      var end, actions := Run(start, steps)[c], ActionsOf(steps, c);
      end.slot.Some? ==>
        var read := ReadsAfter(start[c], actions).slot;
        && read <= |actions|
        && end.stored - end.slot.value == CommittedSince(start[c], actions, read)
        && (Coherent(end) <==> CommittedSince(start[c], actions, read) == 0)
  {
    ChildrenAreIndependent(start, steps, c);
    var actions := ActionsOf(steps, c);
    RunAsRead(start[c], actions);
    if ApplyAll(start[c], actions).slot.Some? {
      var read := ReadsAfter(start[c], actions).slot;
      RowsAt(start[c], actions, read);
      StoredIsCommitted(start[c], actions);
      StoredIsCommitted(start[c], actions[..read]);
    }
  }

  /** Follow an approval from its commit to its write, whatever else happens to the child between.
    * What it writes is wrong by exactly what was committed in that window. */
  lemma {:induction false} ApprovalWindow(cell: Cell, a: nat, delta: int, between: seq<Action>)
    requires a !in cell.approvals
    requires ApproveWrite(a) !in between
    requires ApplyAll(Apply(cell, ApproveCommit(a, delta)), between).holder.Free?
    ensures
      var committed := Apply(cell, ApproveCommit(a, delta));
      var written := Apply(ApplyAll(committed, between), ApproveWrite(a));
      && written.slot == Some(written.stored - CommittedBy(committed, between))
      && (Coherent(written) <==> CommittedBy(committed, between) == 0)
  {
    CarriedThrough(Apply(cell, ApproveCommit(a, delta)), a, between);
  }

  /** No commit of the child, by anyone, while an approval of the child has yet to write. */
  ghost predicate QuietWindows(cell: Cell, actions: seq<Action>) {
    actions == [] ||
    (var front := actions[..|actions| - 1];
     && QuietWindows(cell, front)
     && (ApplyAll(cell, front).approvals != map[] ==>
           !actions[|actions| - 1].Commit? && !actions[|actions| - 1].ApproveCommit?))
  }

  /** With quiet windows the harm passes: once every approval has written, a free slot is empty or right. While
    * one has yet to write, the value it will write is the row. */
  lemma {:induction false} CoherentAfterQuietWindows(cell: Cell, actions: seq<Action>)
    requires Fresh(cell)
    requires QuietWindows(cell, actions)
    ensures
      var end := ApplyAll(cell, actions);
      && (end.approvals == map[] ==> Guarded(end))
      && (forall a | a in end.approvals :: end.approvals == map[a := end.stored])
      && (end.approvals == map[] && end.holder.Free? ==> Coherent(end))
  {
    if actions != [] {
      CoherentAfterQuietWindows(cell, actions[..|actions| - 1]);
      var before := ApplyAll(cell, actions[..|actions| - 1]);
      if a :| a in before.approvals {
        assert before.approvals == map[a := before.stored];
      }
    }
  }

  // ---- What readers and refusals do --------------------------------------------------------------

  /** While only readers take the mutex and no approval writes, a filled slot stays as it is, whatever approvals
    * commit: it is trusted until somebody writes it. */
  lemma {:induction false} FilledSlotIsTrusted(cell: Cell, actions: seq<Action>)
    requires cell.holder.Free? && cell.slot.Some?
    requires forall i | 0 <= i < |actions| :: actions[i] != Enter(true) && !actions[i].ApproveWrite?
    ensures ApplyAll(cell, actions).slot == cell.slot
    ensures ApplyAll(cell, actions).holder in {Free, Entered(false), Done}
    ensures ApplyAll(cell, actions).stored == cell.stored + CommittedBy(cell, actions)
  {
    if actions != [] {
      FilledSlotIsTrusted(cell, actions[..|actions| - 1]);
    }
  }

  /** What a handler that has the mutex still does when it commits nothing more. */
  function Finish(holder: Holder): seq<Action> {
    match holder
    case Free => []
    case Entered(_) => [Refuse]
    case Carrying(_) => [Write, Release]
    case Done => [Release]
  }

  lemma ApplyOne(cell: Cell, action: Action)
    ensures ApplyAll(cell, [action]) == Apply(cell, action)
  {
    assert [action][..0] == [];
  }

  /** From wherever a handler is, its own next steps free the mutex; they commit nothing and write at most the value
    * it carries. */
  lemma {:induction false} MutexComesFree(cell: Cell)
    ensures ApplyAll(cell, Finish(cell.holder))
         == cell.(holder := Free, slot := if cell.holder.Carrying? then Some(cell.holder.value) else cell.slot)
  {
    match cell.holder
    case Free =>
    case Entered(_) => ApplyOne(cell, Refuse);
    case Carrying(_) =>
      assert [Write, Release][..1] == [Write];
      ApplyOne(cell, Write);
    case Done => ApplyOne(cell, Release);
  }

  /** Inside even a quiet window a filled slot is stale: ten minutes approved onto ten, and the free slot says ten. */
  lemma {:induction false} StaleInQuietWindow()
    ensures
      var start := Cell(0, None, Free, map[]);
      var actions := [Enter(true), Commit(10), Write, Release, ApproveCommit(0, 10)];
      var end := ApplyAll(start, actions);
      && Fresh(start) && QuietWindows(start, actions)
      && end.holder.Free? && end.slot == Some(10) && end.stored == 20 && !Coherent(end)
  {
    var start := Cell(0, None, Free, map[]);
    var a1, a2 := [Enter(true)], [Enter(true), Commit(10)];
    var a3, a4 := a2 + [Write], a2 + [Write] + [Release];
    var a5 := a4 + [ApproveCommit(0, 10)];
    assert a5 == [Enter(true), Commit(10), Write, Release, ApproveCommit(0, 10)];
    assert a1[..0] == [] && a2[..1] == a1 && a3[..2] == a2 && a4[..3] == a3 && a5[..4] == a4;
    assert ApplyAll(start, a1) == Apply(start, Enter(true)) && QuietWindows(start, a1);
    assert ApplyAll(start, a2) == Apply(ApplyAll(start, a1), Commit(10)) && QuietWindows(start, a2);
    assert ApplyAll(start, a3) == Apply(ApplyAll(start, a2), Write) && QuietWindows(start, a3);
    assert ApplyAll(start, a4) == Apply(ApplyAll(start, a3), Release) && QuietWindows(start, a4);
  }

  /** A heartbeat in the window: ten minutes approved onto ten, one used, and the slot stays at twenty. */
  lemma {:induction false} HeartbeatInApprovalWindow()
    ensures
      var start := Cell(10, None, Free, map[]);
      var heartbeat := [Enter(true), Commit(-1), Write, Release];
      var end := Apply(ApplyAll(Apply(start, ApproveCommit(0, 10)), heartbeat), ApproveWrite(0));
      Fresh(start) && end.holder.Free? && end.approvals == map[] && end.stored == 19 && end.slot == Some(20)
  {
    var s0 := Apply(Cell(10, None, Free, map[]), ApproveCommit(0, 10));
    var heartbeat := [Enter(true), Commit(-1), Write, Release];
    assert heartbeat[..3] == [Enter(true), Commit(-1), Write];
    assert heartbeat[..3][..2] == [Enter(true), Commit(-1)];
    assert heartbeat[..3][..2][..1] == [Enter(true)];
    assert heartbeat[..3][..2][..1][..0] == [];
    assert ApplyAll(s0, heartbeat[..3][..2][..1]) == Apply(s0, Enter(true));
    assert ApplyAll(s0, heartbeat[..3][..2]).holder == Carrying(19);
    assert ApplyAll(s0, heartbeat[..3]).slot == Some(19);
  }
}
