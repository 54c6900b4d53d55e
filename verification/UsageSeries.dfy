/** The usage chart: distinct minutes of a window, counted into equal buckets. */
module UsageSeries {
  import opened Prelude
  import L = Ledger
  import opened Storage

  datatype Bucket = Bucket(start: int, minutes: nat)

  /** Where the bucket of a minute begins, with the source's truncating division. */
  function BucketStart(minute: int, bucket: int): int
    requires bucket > 0
  {
    DivTrunc(minute, bucket) * bucket
  }

  function EndBucket(endMinute: int, bucket: int): int
    requires bucket > 0
  {
    DivTrunc(endMinute + bucket - 1, bucket) * bucket
  }

  // ---- Multiples of the bucket size --------------------------------------------------------

  lemma FactorBound(k: int, d: int)
    requires d > 0
    ensures 1 <= k ==> d <= k * d
    ensures k <= -1 ==> k * d <= -d
  {
  }

  lemma Quotient(x: int, q: int, d: int)
    requires d > 0 && q * d <= x < q * d + d
    ensures x / d == q
  {
    var k := x / d - q;
    assert x == x / d * d + x % d;
    assert k * d == x / d * d - q * d;
    FactorBound(k, d);
  }

  lemma MultipleMod(q: int, d: int)
    requires d > 0
    ensures q * d % d == 0
  {
    Quotient(q * d, q, d);
  }

  lemma NextMultiple(b: int, c: int, d: int)
    requires d > 0 && b % d == 0 && c % d == 0
    requires c <= b < c + d
    ensures b == c
  {
    Quotient(b, c / d, d);
  }

  lemma StepMultiple(c: int, d: int)
    requires d > 0 && c % d == 0
    ensures (c + d) % d == 0
  {
    MultipleMod(c / d + 1, d);
  }

  lemma Floor(x: int, d: int)
    requires d > 0
    ensures x / d * d <= x < x / d * d + d && x / d * d % d == 0
  {
    MultipleMod(x / d, d);
  }

  lemma MultipleBound(c: int, end: int, d: int)
    requires d > 0 && c % d == 0 && end % d == 0 && c < end
    ensures c + d <= end
  {
    if end < c + d {
      NextMultiple(end, c, d);
    }
  }

  /** For minutes after the epoch the bucket of a minute is the aligned one it lies in. */
  lemma {:induction false} BucketContains(m: int, bucket: int)
    requires bucket > 0 && 0 <= m
    ensures BucketStart(m, bucket) <= m < BucketStart(m, bucket) + bucket
    ensures BucketStart(m, bucket) % bucket == 0
    ensures forall b | b % bucket == 0 && b <= m < b + bucket :: b == BucketStart(m, bucket)
  {
    Floor(m, bucket);
    forall b | b % bucket == 0 && b <= m < b + bucket ensures b == BucketStart(m, bucket) {
      if b <= BucketStart(m, bucket) {
        NextMultiple(BucketStart(m, bucket), b, bucket);
      } else {
        NextMultiple(b, BucketStart(m, bucket), bucket);
      }
    }
  }

  /** Before the epoch truncation rounds up: a minute lies in its own bucket only when it starts it. */
  lemma {:induction false} BucketContainsExactly(m: int, bucket: int)
    requires bucket > 0
    ensures BucketStart(m, bucket) <= m < BucketStart(m, bucket) + bucket <==> 0 <= m || m % bucket == 0
  {
    if 0 <= m {
      Floor(m, bucket);
    } else {
      Floor(-m, bucket);
      NegatedMultiple(m, bucket);
    }
  }

  lemma MultipleNegated(m: int, q: int, d: int)
    requires d > 0 && m == q * d
    ensures m % d == 0 && -m == (-m) / d * d
  {
    MultipleMod(q, d);
    Quotient(-m, -q, d);
  }

  lemma NegatedMultiple(m: int, d: int)
    requires d > 0
    ensures m % d == 0 <==> -m == (-m) / d * d
  {
    if m % d == 0 {
      MultipleNegated(m, m / d, d);
    }
    if -m == (-m) / d * d {
      NegatedBack(m, (-m) / d, d);
    }
  }

  lemma NegatedBack(m: int, p: int, d: int)
    requires d > 0 && -m == p * d
    ensures m % d == 0
  {
    assert m == (-p) * d;
    MultipleMod(-p, d);
  }

  lemma QuotientMonotone(x: int, y: int, d: int)
    requires d > 0 && x <= y
    ensures x / d <= y / d
  {
    var k := x / d - y / d;
    assert k * d == x / d * d - y / d * d;
    FactorBound(k, d);
  }

  lemma ProductMonotone(p: int, q: int, d: int)
    requires d > 0 && p <= q
    ensures p * d <= q * d
  {
  }

  lemma BucketsMonotone(m: int, n: int, bucket: int)
    requires bucket > 0 && m <= n
    ensures BucketStart(m, bucket) <= BucketStart(n, bucket)
  {
    TruncationMonotone(m, n, bucket);
    ProductMonotone(DivTrunc(m, bucket), DivTrunc(n, bucket), bucket);
  }

  lemma TruncationMonotone(m: int, n: int, d: int)
    requires d > 0 && m <= n
    ensures DivTrunc(m, d) <= DivTrunc(n, d)
  {
    if 0 <= m {
      QuotientMonotone(m, n, d);
    } else if n < 0 {
      QuotientMonotone(-n, -m, d);
    } else {
      QuotientMonotone(0, n, d);
      QuotientMonotone(0, -m, d);
    }
  }

  /** The buckets cover a window that begins after the epoch, with less than two buckets to spare. */
  lemma BucketsCover(startMinute: int, endMinute: int, bucket: int)
    requires bucket > 0 && 0 <= startMinute < endMinute
    ensures BucketStart(startMinute, bucket) <= startMinute && endMinute <= EndBucket(endMinute, bucket)
    ensures EndBucket(endMinute, bucket) - BucketStart(startMinute, bucket) < endMinute - startMinute + 2 * bucket
    ensures EndBucket(endMinute, bucket) % bucket == 0
  {
    Floor(startMinute, bucket);
    Floor(endMinute + bucket - 1, bucket);
  }

  lemma BucketsOrdered(a: int, x: int, b: int, d: int)
    requires d > 0 && a % d == 0 && b % d == 0 && a <= x < a + d
    ensures b <= x ==> b <= a
  {
    if a < b {
      MultipleBound(a, b, d);
    }
  }

  lemma MinuteCovered(startMinute: int, endMinute: int, bucket: int, m: int)
    requires bucket > 0 && 0 <= startMinute <= m < endMinute
    ensures BucketStart(startMinute, bucket) <= BucketStart(m, bucket) < EndBucket(endMinute, bucket)
  {
    BucketsCover(startMinute, endMinute, bucket);
    BucketContains(startMinute, bucket);
    BucketContains(m, bucket);
    BucketsOrdered(BucketStart(m, bucket), m, BucketStart(startMinute, bucket), bucket);
  }

  // ---- Counting ----------------------------------------------------------------------------

  /** The bucket of each minute. */
  function Keys(minutes: seq<int>, bucket: int): (keys: seq<int>)
    requires bucket > 0
    ensures |keys| == |minutes|
  {
    if minutes == [] then []
    else Keys(minutes[..|minutes| - 1], bucket) + [BucketStart(minutes[|minutes| - 1], bucket)]
  }

  lemma {:induction false} KeysAt(minutes: seq<int>, bucket: int)
    requires bucket > 0
    ensures forall i | 0 <= i < |minutes| :: Keys(minutes, bucket)[i] == BucketStart(minutes[i], bucket)
    ensures forall i | 0 <= i < |minutes| :: Keys(minutes, bucket)[i] % bucket == 0
  {
    if minutes != [] {
      var n := |minutes| - 1;
      KeysAt(minutes[..n], bucket);
      MultipleMod(DivTrunc(minutes[n], bucket), bucket);
    }
  }

  /** How many keys lie in [lo, hi). */
  function Between(keys: seq<int>, lo: int, hi: int): nat {
    if keys == [] then 0
    else
      var k := keys[|keys| - 1];
      Between(keys[..|keys| - 1], lo, hi) + if lo <= k < hi then 1 else 0
  }

  lemma {:induction false} BetweenNext(keys: seq<int>, lo: int, cursor: int, d: int)
    requires lo <= cursor && d > 0
    requires forall i | 0 <= i < |keys| :: cursor <= keys[i] < cursor + d ==> keys[i] == cursor
    ensures Between(keys, lo, cursor + d) == Between(keys, lo, cursor) + multiset(keys)[cursor]
  {
    if keys != [] {
      var n := |keys| - 1;
      assert keys == keys[..n] + [keys[n]];
      BetweenNext(keys[..n], lo, cursor, d);
    }
  }

  lemma {:induction false} BetweenAll(keys: seq<int>, lo: int, hi: int)
    ensures hi <= lo ==> Between(keys, lo, hi) == 0
    ensures (forall i | 0 <= i < |keys| :: lo <= keys[i] < hi) ==> Between(keys, lo, hi) == |keys|
  {
    if keys != [] {
      var n := |keys| - 1;
      assert keys == keys[..n] + [keys[n]];
      BetweenAll(keys[..n], lo, hi);
    }
  }

  /** The minutes whose key is b. */
  ghost function WithKey(minutes: seq<int>, keys: seq<int>, b: int): set<int>
    requires |keys| == |minutes|
  {
    set i | 0 <= i < |minutes| && keys[i] == b :: minutes[i]
  }

  /** The minutes whose key lies in [lo, hi). */
  ghost function KeyedBetween(minutes: seq<int>, keys: seq<int>, lo: int, hi: int): set<int>
    requires |keys| == |minutes|
  {
    set i | 0 <= i < |minutes| && lo <= keys[i] < hi :: minutes[i]
  }

  lemma KeyedSnoc(minutes: seq<int>, keys: seq<int>, lo: int, hi: int)
    requires |keys| == |minutes| > 0 && Ascending(minutes)
    ensures
      var n := |minutes| - 1;
      var front := KeyedBetween(minutes[..n], keys[..n], lo, hi);
      && KeyedBetween(minutes, keys, lo, hi) == front + (if lo <= keys[n] < hi then {minutes[n]} else {})
      && minutes[n] !in front
  {
    var n := |minutes| - 1;
    assert Below(minutes[..n], minutes[n]);
  }

  lemma {:induction false} BetweenCount(minutes: seq<int>, keys: seq<int>, lo: int, hi: int)
    requires |keys| == |minutes| && Ascending(minutes)
    ensures Between(keys, lo, hi) == |KeyedBetween(minutes, keys, lo, hi)|
  {
    if minutes != [] {
      var n := |minutes| - 1;
      BetweenCount(minutes[..n], keys[..n], lo, hi);
      KeyedSnoc(minutes, keys, lo, hi);
    }
  }

  lemma KeysCount(minutes: seq<int>, keys: seq<int>, b: int)
    requires |keys| == |minutes| && Ascending(minutes)
    ensures multiset(keys)[b] == |WithKey(minutes, keys, b)|
  {
    BetweenNext(keys, b, b, 1);
    BetweenAll(keys, b, b);
    BetweenCount(minutes, keys, b, b + 1);
    assert WithKey(minutes, keys, b) == KeyedBetween(minutes, keys, b, b + 1);
  }

  lemma {:induction false} AscendingCard(minutes: seq<int>)
    requires Ascending(minutes)
    ensures |set m | m in minutes| == |minutes|
  {
    if minutes != [] {
      var n := |minutes| - 1;
      AscendingCard(minutes[..n]);
      assert minutes == minutes[..n] + [minutes[n]];
      assert (set m | m in minutes) == (set m | m in minutes[..n]) + {minutes[n]};
    }
  }

  // ---- The two loops -----------------------------------------------------------------------

  method CountMinutes(usageMinutes: seq<int>, bucket: int) returns (counts: map<int, nat>)
    requires bucket > 0
    ensures forall b :: b in counts <==> 0 < multiset(Keys(usageMinutes, bucket))[b]
    ensures forall b | b in counts :: counts[b] == multiset(Keys(usageMinutes, bucket))[b]
  {
    counts := map[];
    for i := 0 to |usageMinutes|
      invariant forall b :: b in counts <==> 0 < multiset(Keys(usageMinutes[..i], bucket))[b]
      invariant forall b | b in counts :: counts[b] == multiset(Keys(usageMinutes[..i], bucket))[b]
    {
      var bucketStart := DivTrunc(usageMinutes[i], bucket) * bucket;
      KeysSnoc(usageMinutes, i, bucket);
      TallyStep(Keys(usageMinutes[..i], bucket), bucketStart, counts);
      counts := counts[bucketStart := if bucketStart in counts then counts[bucketStart] + 1 else 1];
    }
    assert usageMinutes[..|usageMinutes|] == usageMinutes;
  }

  lemma TallyStep(keys: seq<int>, k: int, counts: map<int, nat>)
    requires forall b :: b in counts <==> 0 < multiset(keys)[b]
    requires forall b | b in counts :: counts[b] == multiset(keys)[b]
    ensures
      var tallied := counts[k := if k in counts then counts[k] + 1 else 1];
      && (forall b :: b in tallied <==> 0 < multiset(keys + [k])[b])
      && (forall b | b in tallied :: tallied[b] == multiset(keys + [k])[b])
  {
  }

  lemma KeysSnoc(minutes: seq<int>, i: nat, bucket: int)
    requires bucket > 0 && i < |minutes|
    ensures Keys(minutes[..i + 1], bucket) == Keys(minutes[..i], bucket) + [BucketStart(minutes[i], bucket)]
  {
    assert minutes[..i + 1][..i] == minutes[..i];
  }

  /** Aligned neighbours from startBucket up to, and not beyond, the cursor. */
  ghost predicate Contiguous(buckets: seq<Bucket>, startBucket: int, cursor: int, bucket: int) {
    && (buckets == [] ==> cursor == startBucket)
    && (buckets != [] ==> buckets[0].start == startBucket && buckets[|buckets| - 1].start + bucket == cursor)
    && (forall i | 0 < i < |buckets| :: buckets[i].start == buckets[i - 1].start + bucket)
  }

  lemma ContiguousSnoc(buckets: seq<Bucket>, startBucket: int, cursor: int, bucket: int, count: nat)
    requires Contiguous(buckets, startBucket, cursor, bucket)
    ensures Contiguous(buckets + [Bucket(cursor, count)], startBucket, cursor + bucket, bucket)
  {
  }

  method BuildSeries(usageMinutes: seq<int>, startMinute: int, endMinute: int, bucket: int)
    returns (buckets: seq<Bucket>, total: nat)
    requires bucket > 0
    ensures
      var startBucket, endBucket := BucketStart(startMinute, bucket), EndBucket(endMinute, bucket);
      && Contiguous(buckets, startBucket, Max(startBucket, endBucket), bucket)
      && total == Between(Keys(usageMinutes, bucket), startBucket, endBucket)
    ensures forall i | 0 <= i < |buckets| ::
      buckets[i].start % bucket == 0 && buckets[i].minutes == multiset(Keys(usageMinutes, bucket))[buckets[i].start]
  {
    var startBucket := DivTrunc(startMinute, bucket) * bucket;
    var endBucket := DivTrunc(endMinute + bucket - 1, bucket) * bucket;
    var counts := CountMinutes(usageMinutes, bucket);
    ghost var keys := Keys(usageMinutes, bucket);
    KeysAt(usageMinutes, bucket);
    MultipleMod(DivTrunc(startMinute, bucket), bucket);
    MultipleMod(DivTrunc(endMinute + bucket - 1, bucket), bucket);
    buckets, total := Emit(counts, keys, startBucket, endBucket, bucket);
  }

  /** Walk the buckets in order, taking each count out of the map. */
  method Emit(allCounts: map<int, nat>, ghost keys: seq<int>, startBucket: int, endBucket: int, bucket: int)
    returns (buckets: seq<Bucket>, total: nat)
    requires bucket > 0 && startBucket % bucket == 0 && endBucket % bucket == 0
    requires forall i | 0 <= i < |keys| :: keys[i] % bucket == 0
    requires forall b :: b in allCounts <==> 0 < multiset(keys)[b]
    requires forall b | b in allCounts :: allCounts[b] == multiset(keys)[b]
    ensures Contiguous(buckets, startBucket, Max(startBucket, endBucket), bucket)
    ensures total == Between(keys, startBucket, endBucket)
    ensures forall i | 0 <= i < |buckets| ::
      buckets[i].start % bucket == 0 && buckets[i].minutes == multiset(keys)[buckets[i].start]
  {
    var counts := allCounts;
    buckets := [];
    var cursor := startBucket;
    total := 0;
    BetweenAll(keys, startBucket, cursor);
    BetweenAll(keys, startBucket, endBucket);
    while cursor < endBucket
      invariant cursor % bucket == 0 && startBucket <= cursor <= Max(startBucket, endBucket)
      invariant Contiguous(buckets, startBucket, cursor, bucket)
      invariant forall b | cursor <= b :: b in counts <==> 0 < multiset(keys)[b]
      invariant forall b | cursor <= b && b in counts :: counts[b] == multiset(keys)[b]
      invariant forall i | 0 <= i < |buckets| ::
        buckets[i].start % bucket == 0 && buckets[i].minutes == multiset(keys)[buckets[i].start]
      invariant total == Between(keys, startBucket, cursor)
    {
      forall i | 0 <= i < |keys| && cursor <= keys[i] < cursor + bucket ensures keys[i] == cursor {
        NextMultiple(keys[i], cursor, bucket);
      }
      BetweenNext(keys, startBucket, cursor, bucket);
      StepMultiple(cursor, bucket);
      MultipleBound(cursor, endBucket, bucket);
      var count := if cursor in counts then counts[cursor] else 0;
      counts := counts - {cursor};
      total := total + count;
      ContiguousSnoc(buckets, startBucket, cursor, bucket, count);
      buckets := buckets + [Bucket(cursor, count)];
      cursor := cursor + bucket;
    }
  }

  /** Contiguous buckets number as many as their span holds. */
  lemma {:induction false} ContiguousLength(buckets: seq<Bucket>, startBucket: int, cursor: int, bucket: int)
    requires bucket > 0 && Contiguous(buckets, startBucket, cursor, bucket)
    ensures cursor == startBucket + |buckets| * bucket
  {
    if buckets != [] {
      var n := |buckets| - 1;
      ContiguousLength(buckets[..n], startBucket, buckets[n].start, bucket);
    }
  }

  /** The buckets follow one another without gaps, cover the window, and number less than two more than its
    * span holds. */
  ghost predicate Covers(buckets: seq<Bucket>, startMinute: int, endMinute: int, bucket: int) {
    && buckets != []
    && Contiguous(buckets, buckets[0].start, buckets[|buckets| - 1].start + bucket, bucket)
    && buckets[0].start <= startMinute && endMinute <= buckets[|buckets| - 1].start + bucket
    && (|buckets| - 2) * bucket < endMinute - startMinute
  }

  lemma {:induction false} SeriesCovers(startMinute: int, endMinute: int, bucket: int, buckets: seq<Bucket>)
    requires bucket > 0 && 0 <= startMinute < endMinute
    requires
      var startBucket, endBucket := BucketStart(startMinute, bucket), EndBucket(endMinute, bucket);
      Contiguous(buckets, startBucket, Max(startBucket, endBucket), bucket)
    ensures Covers(buckets, startMinute, endMinute, bucket)
  {
    BucketsCover(startMinute, endMinute, bucket);
    var startBucket, endBucket := BucketStart(startMinute, bucket), EndBucket(endMinute, bucket);
    ContiguousLength(buckets, startBucket, Max(startBucket, endBucket), bucket);
  }

  lemma CountsMinutes(minutes: seq<int>, bucket: int, b: int)
    requires bucket > 0 && b % bucket == 0
    requires Ascending(minutes) && forall i | 0 <= i < |minutes| :: 0 <= minutes[i]
    ensures multiset(Keys(minutes, bucket))[b] == |set m | m in minutes && b <= m < b + bucket|
  {
    BucketOfSet(minutes, bucket, b);
    KeysCount(minutes, Keys(minutes, bucket), b);
  }

  lemma BucketOfSet(minutes: seq<int>, bucket: int, b: int)
    requires bucket > 0 && b % bucket == 0 && forall i | 0 <= i < |minutes| :: 0 <= minutes[i]
    ensures WithKey(minutes, Keys(minutes, bucket), b) == set m | m in minutes && b <= m < b + bucket
  {
    var keys := Keys(minutes, bucket);
    KeysAt(minutes, bucket);
    forall i | 0 <= i < |minutes| ensures keys[i] == b <==> b <= minutes[i] < b + bucket {
      BucketContains(minutes[i], bucket);
    }
  }

  lemma {:induction false} TotalOfSet(minutes: seq<int>, startMinute: int, endMinute: int, bucket: int)
    requires bucket > 0 && 0 <= startMinute < endMinute
    requires Ascending(minutes) && forall i | 0 <= i < |minutes| :: startMinute <= minutes[i] < endMinute
    ensures Between(Keys(minutes, bucket), BucketStart(startMinute, bucket), EndBucket(endMinute, bucket))
         == |set m | m in minutes| <= endMinute - startMinute
  {
    var keys := Keys(minutes, bucket);
    KeysAt(minutes, bucket);
    forall i | 0 <= i < |keys|
      ensures BucketStart(startMinute, bucket) <= keys[i] < EndBucket(endMinute, bucket)
    {
      MinuteCovered(startMinute, endMinute, bucket, minutes[i]);
    }
    BetweenAll(keys, BucketStart(startMinute, bucket), EndBucket(endMinute, bucket));
    AscendingCard(minutes);
    SubsetCard((set m | m in minutes), Range(startMinute, endMinute));
  }

  /** The child's distinct usage minutes in [lo, hi). */
  ghost function UsedMinutes(usage: set<L.UsageRow>, child: ChildId, lo: int, hi: int): set<int> {
    set r | r in usage && r.child == child && lo <= r.minute < hi :: r.minute
  }

  lemma ListedAreUsed(store: Store, child: ChildId, minutes: seq<int>, from: int, to: int, lo: int, hi: int)
    requires forall i | 0 <= i < |minutes| :: from <= minutes[i] < to && store.Reported(child, minutes[i])
    requires forall m | from <= m < to && store.Reported(child, m) :: m in minutes
    ensures (set m | m in minutes && lo <= m < hi) == UsedMinutes(store.usage, child, Max(from, lo), Min(to, hi))
  {
    var listed := set m | m in minutes && lo <= m < hi;
    var used := UsedMinutes(store.usage, child, Max(from, lo), Min(to, hi));
    forall m | m in listed ensures m in used {
      var i :| 0 <= i < |minutes| && minutes[i] == m;
      var r :| r in store.usage && r.child == child && r.minute == minutes[i];
    }
    forall m | m in used ensures m in listed {
      assert store.Reported(child, m);
    }
  }

  lemma ListedTotal(store: Store, child: ChildId, minutes: seq<int>, from: int, to: int)
    requires forall i | 0 <= i < |minutes| :: from <= minutes[i] < to && store.Reported(child, minutes[i])
    requires forall m | from <= m < to && store.Reported(child, m) :: m in minutes
    ensures (set m | m in minutes) == UsedMinutes(store.usage, child, from, to)
  {
    ListedAreUsed(store, child, minutes, from, to, from, to);
    assert (set m | m in minutes) == set m | m in minutes && from <= m < to;
  }

  lemma ListedCount(store: Store, child: ChildId, minutes: seq<int>, from: int, to: int, bucket: int, b: int)
    requires bucket > 0 && b % bucket == 0 && 0 <= from
    requires Ascending(minutes)
    requires forall i | 0 <= i < |minutes| :: from <= minutes[i] < to && store.Reported(child, minutes[i])
    requires forall m | from <= m < to && store.Reported(child, m) :: m in minutes
    ensures multiset(Keys(minutes, bucket))[b]
         == |UsedMinutes(store.usage, child, Max(from, b), Min(to, b + bucket))|
  {
    CountsMinutes(minutes, bucket, b);
    ListedAreUsed(store, child, minutes, from, to, b, b + bucket);
  }

  /** The child's distinct usage minutes in [from, to) whose bucket begins at b. */
  ghost function UsedInBucket(usage: set<L.UsageRow>, child: ChildId, from: int, to: int, bucket: int, b: int): set<int>
    requires bucket > 0
  {
    set m | m in UsedMinutes(usage, child, from, to) && BucketStart(m, bucket) == b
  }

  /** Those whose bucket begins before the last one ends: all but minutes before the epoch in a window that
    * ends there too. */
  ghost function UsedBefore(usage: set<L.UsageRow>, child: ChildId, from: int, to: int, bucket: int): set<int>
    requires bucket > 0
  {
    set m | m in UsedMinutes(usage, child, from, to) && BucketStart(m, bucket) < EndBucket(to, bucket)
  }

  /** The series over any window: neighbours from the first bucket on, each counting the minutes that fall to it. */
  ghost predicate Tallies(usage: set<L.UsageRow>, child: ChildId, buckets: seq<Bucket>, total: nat, from: int, to: int,
                          bucket: int)
    requires bucket > 0
  {
    && Contiguous(buckets, BucketStart(from, bucket), Max(BucketStart(from, bucket), EndBucket(to, bucket)), bucket)
    && (forall i | 0 <= i < |buckets| ::
          buckets[i].minutes == |UsedInBucket(usage, child, from, to, bucket, buckets[i].start)|)
    && total == |UsedBefore(usage, child, from, to, bucket)|
  }

  lemma InBucket(store: Store, child: ChildId, minutes: seq<int>, from: int, to: int, bucket: int, b: int)
    requires bucket > 0
    requires forall i | 0 <= i < |minutes| :: from <= minutes[i] < to && store.Reported(child, minutes[i])
    requires forall m | from <= m < to && store.Reported(child, m) :: m in minutes
    ensures WithKey(minutes, Keys(minutes, bucket), b) == UsedInBucket(store.usage, child, from, to, bucket, b)
  {
    KeysAt(minutes, bucket);
    ListedTotal(store, child, minutes, from, to);
    var used := UsedMinutes(store.usage, child, from, to);
    assert forall m :: m in used <==> m in minutes;
  }

  lemma BeforeEnd(store: Store, child: ChildId, minutes: seq<int>, from: int, to: int, bucket: int)
    requires bucket > 0
    requires forall i | 0 <= i < |minutes| :: from <= minutes[i] < to && store.Reported(child, minutes[i])
    requires forall m | from <= m < to && store.Reported(child, m) :: m in minutes
    ensures KeyedBetween(minutes, Keys(minutes, bucket), BucketStart(from, bucket), EndBucket(to, bucket))
            == UsedBefore(store.usage, child, from, to, bucket)
  {
    KeysAt(minutes, bucket);
    ListedTotal(store, child, minutes, from, to);
    var used := UsedMinutes(store.usage, child, from, to);
    assert forall m :: m in used <==> m in minutes;
    forall i | 0 <= i < |minutes| ensures BucketStart(from, bucket) <= Keys(minutes, bucket)[i] {
      BucketsMonotone(from, minutes[i], bucket);
    }
  }

  lemma SeriesTallies(store: Store, child: ChildId, minutes: seq<int>, from: int, to: int, bucket: int,
                      buckets: seq<Bucket>, total: nat)
    requires bucket > 0 && Ascending(minutes)
    requires forall i | 0 <= i < |minutes| :: from <= minutes[i] < to && store.Reported(child, minutes[i])
    requires forall m | from <= m < to && store.Reported(child, m) :: m in minutes
    requires
      var startBucket, endBucket := BucketStart(from, bucket), EndBucket(to, bucket);
      Contiguous(buckets, startBucket, Max(startBucket, endBucket), bucket)
    requires total == Between(Keys(minutes, bucket), BucketStart(from, bucket), EndBucket(to, bucket))
    requires forall i | 0 <= i < |buckets| ::
      buckets[i].minutes == multiset(Keys(minutes, bucket))[buckets[i].start]
    ensures Tallies(store.usage, child, buckets, total, from, to, bucket)
  {
    var keys := Keys(minutes, bucket);
    forall i | 0 <= i < |buckets|
      ensures buckets[i].minutes == |UsedInBucket(store.usage, child, from, to, bucket, buckets[i].start)|
    {
      KeysCount(minutes, keys, buckets[i].start);
      InBucket(store, child, minutes, from, to, bucket, buckets[i].start);
    }
    BetweenCount(minutes, keys, BucketStart(from, bucket), EndBucket(to, bucket));
    BeforeEnd(store, child, minutes, from, to, bucket);
  }

  /** Each bucket counts the child's distinct usage minutes in it and in the window. */
  ghost predicate CountsUsage(usage: set<L.UsageRow>, child: ChildId, buckets: seq<Bucket>, startMinute: int,
                              endMinute: int, bucket: int)
  {
    forall i | 0 <= i < |buckets| ::
      buckets[i].minutes == |UsedMinutes(usage, child, Max(startMinute, buckets[i].start),
                                         Min(endMinute, buckets[i].start + bucket))|
  }

  lemma SeriesCounts(store: Store, child: ChildId, minutes: seq<int>, from: int, to: int, bucket: int,
                     buckets: seq<Bucket>)
    requires bucket > 0 && 0 <= from && Ascending(minutes)
    requires forall i | 0 <= i < |minutes| :: from <= minutes[i] < to && store.Reported(child, minutes[i])
    requires forall m | from <= m < to && store.Reported(child, m) :: m in minutes
    requires forall i | 0 <= i < |buckets| ::
      buckets[i].start % bucket == 0 && buckets[i].minutes == multiset(Keys(minutes, bucket))[buckets[i].start]
    ensures CountsUsage(store.usage, child, buckets, from, to, bucket)
  {
    forall i | 0 <= i < |buckets|
      ensures buckets[i].minutes == |UsedMinutes(store.usage, child, Max(from, buckets[i].start),
                                                 Min(to, buckets[i].start + bucket))|
    {
      ListedCount(store, child, minutes, from, to, bucket, buckets[i].start);
    }
  }

  /** The handler: clamp the query, fetch the window that ends with the current minute, and count. */
  method ApiListChildUsage(store: Store, child: ChildId, days: Option<int>, bucketMinutes: Option<int>, now: int)
    returns (startMinute: int, endMinute: int, bucket: int, buckets: seq<Bucket>, total: nat)
    ensures endMinute == L.NowMinute(now) + 1
    ensures endMinute - startMinute
         == 1440 * if days.None? then 7 else if days.value < 1 then 1 else if days.value > 90 then 90 else days.value
    ensures bucket
         == if bucketMinutes.None? then 60
            else if bucketMinutes.value < 1 then 1
            else if bucketMinutes.value > 1440 then 1440
            else bucketMinutes.value
    ensures Tallies(store.usage, child, buckets, total, startMinute, endMinute, bucket)
    ensures 0 <= startMinute ==>
      && Covers(buckets, startMinute, endMinute, bucket)
      && CountsUsage(store.usage, child, buckets, startMinute, endMinute, bucket)
      && total == |UsedMinutes(store.usage, child, startMinute, endMinute)| <= endMinute - startMinute
  {
    var spanDays := if days.Some? then Max(1, Min(days.value, 90)) else 7;
    bucket := if bucketMinutes.Some? then Max(1, Min(bucketMinutes.value, 24 * 60)) else 60;
    endMinute := L.NowMinute(now) + 1;
    startMinute := endMinute - spanDays * 24 * 60;
    var minutes := store.ListUsageMinutes(child, startMinute, endMinute);
    buckets, total := BuildSeries(minutes, startMinute, endMinute, bucket);
    SeriesTallies(store, child, minutes, startMinute, endMinute, bucket, buckets, total);
    if 0 <= startMinute {
      SeriesCovers(startMinute, endMinute, bucket, buckets);
      TotalOfSet(minutes, startMinute, endMinute, bucket);
      ListedTotal(store, child, minutes, startMinute, endMinute);
      SeriesCounts(store, child, minutes, startMinute, endMinute, bucket, buckets);
    }
  }
}
