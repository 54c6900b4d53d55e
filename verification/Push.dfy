/** When a child's remaining minutes are worth a push notification. */
module Push {
  import opened Prelude

  const THRESHOLD := 5

  datatype Snapshot = Snapshot(lastRemaining: int, sentThreshold: bool)

  // ---- The rule without memory of what was sent ---------------------------------------------

  /** Push number n of a child's values: time was added, or the values just came down to the threshold. */
  ghost predicate Pushes(values: seq<int>, n: nat)
    requires n < |values|
  {
    || (n > 0 && values[n] > values[n - 1])
    || (1 <= values[n] <= THRESHOLD && (n == 0 || values[n - 1] > THRESHOLD))
  }

  /** What the stored entry must be after these values. */
  ghost predicate Stands(entry: Option<Snapshot>, values: seq<int>) {
    if values == [] then entry == None
    else
      && entry.Some?
      && entry.value.lastRemaining == values[|values| - 1]
      && (1 <= values[|values| - 1] <= THRESHOLD ==> entry.value.sentThreshold)
      && (values[|values| - 1] > THRESHOLD ==> !entry.value.sentThreshold)
  }

  class PushServiceInner {
    var recentRemaining: map<ChildId, Snapshot>
    /** Every value seen, child by child. */
    ghost var history: map<ChildId, seq<int>>

    static ghost function Seen(history: map<ChildId, seq<int>>, child: ChildId): seq<int> {
      if child in history then history[child] else []
    }

    static ghost function Entry(entries: map<ChildId, Snapshot>, child: ChildId): Option<Snapshot> {
      if child in entries then Some(entries[child]) else None
    }

    ghost predicate Valid()
      reads this
    {
      forall c :: Stands(Entry(recentRemaining, c), Seen(history, c))
    }

    constructor ()
      ensures Valid() && history == map[]
    {
      recentRemaining, history := map[], map[];
    }

    /** The stateful machine answers as the memoryless rule does, for any sequence of values of any children. */
    method ShouldPushRemaining(child: ChildId, remaining: int) returns (push: bool)
      requires Valid()
      modifies this
      ensures Valid()
      ensures history == old(history)[child := Seen(old(history), child) + [remaining]]
      ensures push <==> Pushes(Seen(history, child), |Seen(history, child)| - 1)
      ensures
        var seen := Seen(old(history), child);
        if seen == [] then push <==> 1 <= remaining <= 5
        else
          var last := seen[|seen| - 1];
          push <==> remaining > last || (1 <= remaining <= 5 && last > 5)
    {
      assert Stands(Entry(recentRemaining, child), Seen(history, child));
      ghost var before, seen := history, Seen(history, child);
      ghost var entries := recentRemaining;
      if child !in recentRemaining {
        recentRemaining := recentRemaining[child := Snapshot(remaining, false)];
      }
      var prevRemaining := recentRemaining[child].lastRemaining;
      recentRemaining := recentRemaining[child := recentRemaining[child].(lastRemaining := remaining)];
      history := history[child := seen + [remaining]];
      var increased := remaining > prevRemaining;
      if increased {
        recentRemaining := recentRemaining[child := recentRemaining[child].(sentThreshold := remaining <= 5)];
        push := true;
      } else if remaining > 5 || remaining <= 0 {
        recentRemaining := recentRemaining[child := recentRemaining[child].(sentThreshold := false)];
        push := false;
      } else if !recentRemaining[child].sentThreshold && remaining <= 5 {
        recentRemaining := recentRemaining[child := recentRemaining[child].(sentThreshold := true)];
        push := true;
      } else {
        push := false;
      }
      forall c ensures Stands(Entry(recentRemaining, c), Seen(history, c)) {
        assert Stands(Entry(entries, c), Seen(before, c));
        if c != child {
          assert Entry(recentRemaining, c) == Entry(entries, c) && Seen(history, c) == Seen(before, c);
        }
      }
    }
  }

  ghost predicate NonIncreasing(values: seq<int>) {
    forall i, j :: 0 <= i <= j < |values| ==> values[j] <= values[i]
  }

  /** While minutes only run down there is at most one push: at the first value in 1..5, if there is one. */
  lemma OnePushPerDescent(values: seq<int>)
    requires NonIncreasing(values)
    ensures forall i, j | 0 <= i < |values| && 0 <= j < |values| && Pushes(values, i) && Pushes(values, j) :: i == j
    ensures (exists i :: 0 <= i < |values| && Pushes(values, i))
       <==> (exists i :: 0 <= i < |values| && 1 <= values[i] <= THRESHOLD)
  {
    if k :| 0 <= k < |values| && 1 <= values[k] <= THRESHOLD {
      FirstLow(values, k);
    }
  }

  lemma {:induction false} FirstLow(values: seq<int>, k: nat)
    requires NonIncreasing(values) && k < |values| && 1 <= values[k] <= THRESHOLD
    ensures exists i :: 0 <= i <= k && Pushes(values, i)
  {
    if k > 0 && values[k - 1] <= THRESHOLD {
      FirstLow(values, k - 1);
    } else {
      assert Pushes(values, k);
    }
  }
}
