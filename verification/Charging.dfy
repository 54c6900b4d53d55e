/** What a minute costs: one charge for each device that reported it, not one for the minute. */
module Charging {
  import opened Prelude
  import opened Ledger
  import opened History
  import UsageSeries

  function Minutes(rows: set<UsageRow>): set<int> {
    set r | r in rows :: r.minute
  }

  ghost predicate OfChild(rows: set<UsageRow>, c: ChildId) {
    forall r | r in rows :: r.child == c
  }

  /** Some minute was reported by two devices. */
  ghost predicate Shared(rows: set<UsageRow>) {
    exists r, s :: r in rows && s in rows && r.minute == s.minute && r.device != s.device
  }

  lemma RemoveRow(rows: set<UsageRow>, r: UsageRow, c: ChildId)
    requires r in rows && OfChild(rows, c)
    ensures Minutes(rows) == Minutes(rows - {r}) + {r.minute}
    ensures Shared(rows) <==> Shared(rows - {r}) || r.minute in Minutes(rows - {r})
  {
    var rest := rows - {r};
    forall m ensures m in Minutes(rows) <==> m in Minutes(rest) + {r.minute} {
      if m in Minutes(rows) {
        var s :| s in rows && s.minute == m;
        assert s == r || s in rest;
      }
    }
    if r.minute in Minutes(rest) {
      var s :| s in rest && s.minute == r.minute;
      assert s.device != r.device;
    }
    if Shared(rows) && !Shared(rest) {
      var s, t :| s in rows && t in rows && s.minute == t.minute && s.device != t.device;
      var other := if s == r then t else s;
      assert other in rest && other.minute == r.minute;
    }
  }

  /** A child's distinct minutes are no more than its rows, and as many if and only if no minute was reported
    * by two devices. */
  lemma {:induction false} MinutesAndRows(rows: set<UsageRow>, c: ChildId)
    requires OfChild(rows, c)
    ensures |Minutes(rows)| <= |rows|
    ensures |Minutes(rows)| == |rows| <==> !Shared(rows)
    decreases rows
  {
    if rows != {} {
      var r :| r in rows;
      MinutesAndRows(rows - {r}, c);
      RemoveRow(rows, r, c);
    }
  }

  /** In every reachable state a child has paid at least its distinct minutes, and exactly those if and only
    * if no minute was reported by two of its devices. */
  lemma {:induction false} ChargedPerRow(requests: seq<Request>, c: ChildId)
    ensures
      var db := Run(requests).0;
      c in db.balances ==>
        var b, rows := db.balances[c], UsageOf(db.usage, c);
        var paid := Earned(db.rewards, c) - (b.remaining + b.account);
        && |Minutes(rows)| <= paid
        && (paid == |Minutes(rows)| <==> !Shared(rows))
  {
    ConservationAndAudit(requests);
    var db := Run(requests).0;
    assert Accounted(db, c);
    MinutesAndRows(UsageOf(db.usage, c), c);
  }

  /** A child's rows in a window. */
  ghost function RowsIn(usage: set<UsageRow>, c: ChildId, lo: int, hi: int): set<UsageRow> {
    set r | r in usage && r.child == c && lo <= r.minute < hi
  }

  /** The chart's total for a window against the charges in it. */
  lemma ChartAgainstCharges(usage: set<UsageRow>, c: ChildId, lo: int, hi: int)
    ensures |UsageSeries.UsedMinutes(usage, c, lo, hi)| <= |RowsIn(usage, c, lo, hi)|
    ensures |UsageSeries.UsedMinutes(usage, c, lo, hi)| == |RowsIn(usage, c, lo, hi)|
            <==> !Shared(RowsIn(usage, c, lo, hi))
  {
    var rows := RowsIn(usage, c, lo, hi);
    MinutesAndRows(rows, c);
    assert UsageSeries.UsedMinutes(usage, c, lo, hi) == Minutes(rows);
  }

  lemma RunSnoc(requests: seq<Request>, r: Request)
    ensures Run(requests + [r]).0 == Step(Run(requests).0, r).0
  {
    assert (requests + [r])[..|requests|] == requests;
  }

  lemma ChargeOne(db: Db, c: ChildId, device: DeviceId)
    requires c in db.balances && UsageRow(c, 0, device) !in db.usage
    ensures
      var after := Step(db, PostUsage(c, device, [0], 0)).0;
      && after.usage == db.usage + {UsageRow(c, 0, device)}
      && after.balances == db.balances[c := db.balances[c].(remaining := db.balances[c].remaining - 1)]
  {
    assert BatchRows(c, device, [0]) == {UsageRow(c, 0, device)};
    assert BatchRows(c, device, [0]) - db.usage == {UsageRow(c, 0, device)};
    assert forall m | m in [0] :: m == 0;
  }

  function TwoReports(c: ChildId, first: DeviceId, second: DeviceId): seq<Request> {
    [Configure({c}, map[])] + [PostUsage(c, first, [0], 0)] + [PostUsage(c, second, [0], 0)]
  }

  lemma RunTwoReports(c: ChildId, first: DeviceId, second: DeviceId)
    requires first != second
    ensures
      var db := Run(TwoReports(c, first, second)).0;
      && db.usage == {UsageRow(c, 0, first)} + {UsageRow(c, 0, second)}
      && c in db.balances && db.balances[c] == Balance(-2, 0)
  {
    var configure := Configure({c}, map[]);
    var charge1, charge2 := PostUsage(c, first, [0], 0), PostUsage(c, second, [0], 0);
    RunSnoc([], configure);
    assert [] + [configure] == [configure];
    RunSnoc([configure], charge1);
    RunSnoc([configure] + [charge1], charge2);
    var db := Run([configure]).0;
    assert c in db.balances && db.balances[c] == Balance(0, 0) && db.usage == {};
    ChargeOne(db, c, first);
    ChargeOne(Step(db, charge1).0, c, second);
  }

  /** The same minute reported by two devices is charged twice and shown once. */
  lemma {:induction false} TwoDevicesPayTwice(c: ChildId, first: DeviceId, second: DeviceId)
    requires first != second
    ensures
      var db := Run(TwoReports(c, first, second)).0;
      && c in db.balances && db.balances[c] == Balance(-2, 0)
      && Minutes(UsageOf(db.usage, c)) == {0} == UsageSeries.UsedMinutes(db.usage, c, 0, 1)
  {
    RunTwoReports(c, first, second);
    var db := Run(TwoReports(c, first, second)).0;
    var r := UsageRow(c, 0, first);
    assert r in UsageOf(db.usage, c) && forall s | s in db.usage :: s.minute == 0;
    assert r in db.usage && r.child == c && 0 <= r.minute < 1;
  }
}
