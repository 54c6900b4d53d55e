/** The sliding-window login limiter. Times are nanoseconds of a monotone clock. */
module RateLimiter {
  import opened Prelude

  type Ip = string

  /** Whole seconds, rounded down. */
  function AsSecs(nanos: int): int { nanos / 1_000_000_000 }

  /** How long ago t was, never negative. */
  function Since(now: int, t: int): int { Max(0, now - t) }

  /** The entries younger than the window. */
  function Recent(entries: seq<int>, now: int, window: int): seq<int> {
    if entries == [] then []
    else
      var last := entries[|entries| - 1];
      Recent(entries[..|entries| - 1], now, window) + if Since(now, last) < window then [last] else []
  }

  // ---- What the limiter should do: the whole accepted log decides ---------------------------

  function RetryAfter(oldest: int, now: int, window: int): int {
    if Since(now, oldest) < window then AsSecs(window - Since(now, oldest)) + 1 else 1
  }

  /** Accept unless max accepted attempts of this address are younger than the window. */
  function Decide(log: seq<int>, now: int, max: nat, window: int): Result<(), int>
    requires max > 0
  {
    var recent := Recent(log, now, window);
    if |recent| >= max then Err(RetryAfter(recent[0], now, window)) else Ok(())
  }

  ghost predicate Ordered(log: seq<int>) {
    forall i, j :: 0 <= i <= j < |log| ==> log[i] <= log[j]
  }

  /** Any max + 1 consecutive accepted attempts span at least the window. */
  ghost predicate Spaced(log: seq<int>, max: nat, window: int) {
    forall i :: 0 <= i && i + max < |log| ==> window <= log[i + max] - log[i]
  }

  ghost predicate Before(log: seq<int>, now: int) {
    forall i :: 0 <= i < |log| ==> log[i] <= now
  }

  ghost predicate SplitsAt(log: seq<int>, cut: nat, now: int, window: int) {
    && cut <= |log|
    && (forall i | 0 <= i < cut :: window <= Since(now, log[i]))
    && (forall i | cut <= i < |log| :: Since(now, log[i]) < window)
  }

  lemma {:induction false} RecentFrom(log: seq<int>, cut: nat, now: int, window: int)
    requires SplitsAt(log, cut, now, window)
    ensures Recent(log, now, window) == log[cut..]
  {
    if log != [] {
      var n := |log| - 1;
      if cut == |log| {
        RecentFrom(log[..n], n, now, window);
      } else {
        RecentFrom(log[..n], cut, now, window);
        assert log[cut..] == log[..n][cut..] + [log[n]];
      }
    }
  }

  lemma {:induction false} OrderedSplits(log: seq<int>, now: int, window: int) returns (cut: nat)
    requires Ordered(log)
    ensures SplitsAt(log, cut, now, window)
  {
    if log == [] {
      cut := 0;
    } else {
      var n := |log| - 1;
      if window <= Since(now, log[n]) {
        cut := |log|;
        assert forall i | 0 <= i < |log| :: log[i] <= log[n];
      } else {
        cut := OrderedSplits(log[..n], now, window);
      }
    }
  }

  /** In an ordered log the recent entries are a suffix. */
  lemma RecentIsSuffix(log: seq<int>, now: int, window: int)
    requires Ordered(log)
    ensures |Recent(log, now, window)| <= |log|
    ensures Recent(log, now, window) == log[|log| - |Recent(log, now, window)|..]
    ensures SplitsAt(log, |log| - |Recent(log, now, window)|, now, window)
  {
    var cut := OrderedSplits(log, now, window);
    RecentFrom(log, cut, now, window);
  }

  lemma AcceptKeepsSpacing(log: seq<int>, now: int, max: nat, window: int)
    requires max > 0 && Ordered(log) && Before(log, now) && Spaced(log, max, window)
    requires Decide(log, now, max, window).Ok?
    ensures Ordered(log + [now]) && Before(log + [now], now) && Spaced(log + [now], max, window)
  {
    RecentIsSuffix(log, now, window);
    var n, after := |log|, log + [now];
    forall i | 0 <= i && i + max < |after| ensures window <= after[i + max] - after[i] {
      if i + max == n {
        assert window <= Since(now, log[i]);
      } else {
        assert window <= log[i + max] - log[i];
      }
    }
    assert forall i | 0 <= i < n :: after[i] == log[i];
  }

  /** Recent entries of an older instant, seen again later, are the recent entries of the later one. */
  lemma {:induction false} RecentAgain(log: seq<int>, earlier: int, now: int, window: int)
    requires earlier <= now
    ensures Recent(Recent(log, earlier, window), now, window) == Recent(log, now, window)
  {
    if log != [] {
      var n := |log| - 1;
      RecentAgain(log[..n], earlier, now, window);
      var kept := Recent(log[..n], earlier, window);
      if Since(earlier, log[n]) < window {
        assert (kept + [log[n]])[..|kept|] == kept;
      } else {
        assert kept + [] == kept;
      }
    }
  }

  lemma RecentSnoc(entries: seq<int>, t: int, now: int, window: int)
    ensures Recent(entries + [t], now, window)
         == Recent(entries, now, window) + if Since(now, t) < window then [t] else []
  {
    assert (entries + [t])[..|entries|] == entries;
  }

  // ---- The two promises ---------------------------------------------------------------------

  /** Indices of the log that fall in [from, from + window). */
  ghost function InWindow(log: seq<int>, from: int, window: int): set<int> {
    set i | 0 <= i < |log| && from <= log[i] < from + window
  }

  lemma {:induction false} FirstAtOrAfter(log: seq<int>, from: int) returns (cut: nat)
    requires Ordered(log)
    ensures cut <= |log|
    ensures forall i | 0 <= i < |log| :: from <= log[i] <==> cut <= i
  {
    if log == [] || log[|log| - 1] < from {
      cut := |log|;
    } else {
      cut := FirstAtOrAfter(log[..|log| - 1], from);
    }
  }

  /** No half-open window of the configured length ever holds more than max accepted attempts. */
  lemma {:induction false} WindowHoldsAtMostMax(log: seq<int>, max: nat, window: int, from: int)
    requires Ordered(log) && Spaced(log, max, window)
    ensures |InWindow(log, from, window)| <= max
  {
    var cut := FirstAtOrAfter(log, from);
    forall i | cut + max <= i < |log| ensures from + window <= log[i] {
      assert from <= log[cut] && window <= log[cut + max] - log[cut];
      assert log[cut + max] <= log[i];
    }
    assert InWindow(log, from, window) <= Range(cut, cut + max);
    SubsetCard(InWindow(log, from, window), Range(cut, cut + max));
  }

  /** A refusal names the number of whole seconds just above the true wait, and it is exact: with no
    * attempt accepted meanwhile, a retry is accepted if and only if the true wait is over. */
  lemma {:induction false} RetryAfterIsExact(log: seq<int>, now: int, later: int, max: nat, window: int)
    requires max > 0 && Ordered(log) && Before(log, now) && Spaced(log, max, window) && now <= later
    requires Decide(log, now, max, window).Err?
    ensures max <= |log|
    ensures
      var retry := Decide(log, now, max, window).error;
      var wait := log[|log| - max] + window - now;
      && 0 < wait < Nanos(retry) <= wait + Nanos(1)
      && (Decide(log, later, max, window).Ok? <==> wait <= later - now)
      && (now + Nanos(retry) <= later ==> Decide(log, later, max, window).Ok?)
  {
    RecentIsSuffix(log, now, window);
    RecentIsSuffix(log, later, window);
    var recent := Recent(log, now, window);
    var cut := |log| - |recent|;
    forall i | 0 <= i < |log| - max ensures window <= now - log[i] {
      assert log[i + max] <= now;
    }
    assert recent[0] == log[cut];
    assert cut == |log| - max;
    var laterCut := |log| - |Recent(log, later, window)|;
    assert cut < laterCut <==> window <= later - log[cut];
  }

  // ---- What is stored against what was accepted ----------------------------------------------

  function Entries(attempts: map<Ip, seq<int>>, ip: Ip): seq<int> {
    if ip in attempts then attempts[ip] else []
  }

  /** Drop expired entries, and addresses left without any. */
  function Pruned(attempts: map<Ip, seq<int>>, now: int, window: int): map<Ip, seq<int>> {
    map k | k in attempts && Recent(attempts[k], now, window) != [] :: Recent(attempts[k], now, window)
  }

  /** The stored entries answer for the full log from `clock` on. */
  ghost predicate Stands(entries: seq<int>, log: seq<int>, clock: int, window: int) {
    forall t | clock <= t :: Recent(entries, t, window) == Recent(log, t, window)
  }

  ghost predicate Tracks(attempts: map<Ip, seq<int>>, log: map<Ip, seq<int>>, clock: int, max: nat, window: int) {
    && (forall ip | ip in attempts :: attempts[ip] != [])
    && (forall ip :: TracksOne(Entries(attempts, ip), Entries(log, ip), clock, max, window))
  }

  ghost predicate TracksOne(entries: seq<int>, log: seq<int>, clock: int, max: nat, window: int) {
    && Ordered(log) && Before(log, clock) && Spaced(log, max, window)
    && Ordered(entries) && |entries| <= max
    && Stands(entries, log, clock, window)
  }

  lemma PruneOne(entries: seq<int>, log: seq<int>, clock: int, now: int, max: nat, window: int)
    requires clock <= now && TracksOne(entries, log, clock, max, window)
    ensures Recent(entries, now, window) == Recent(log, now, window)
    ensures TracksOne(Recent(entries, now, window), log, now, max, window)
  {
    var kept := Recent(entries, now, window);
    RecentIsSuffix(entries, now, window);
    forall t | now <= t ensures Recent(kept, t, window) == Recent(log, t, window) {
      RecentAgain(entries, now, t, window);
    }
  }

  lemma PruneTracks(attempts: map<Ip, seq<int>>, log: map<Ip, seq<int>>, clock: int, now: int, max: nat, window: int)
    requires clock <= now && Tracks(attempts, log, clock, max, window)
    ensures Tracks(Pruned(attempts, now, window), log, now, max, window)
    ensures Windowed(Pruned(attempts, now, window), log, now, window)
  {
    var pruned := Pruned(attempts, now, window);
    forall ip
      ensures Entries(pruned, ip) == Recent(Entries(log, ip), now, window)
      ensures TracksOne(Entries(pruned, ip), Entries(log, ip), now, max, window)
    {
      PruneOne(Entries(attempts, ip), Entries(log, ip), clock, now, max, window);
    }
  }

  lemma StandsSnoc(entries: seq<int>, log: seq<int>, now: int, window: int)
    requires Stands(entries, log, now, window)
    ensures Stands(entries + [now], log + [now], now, window)
  {
    forall t | now <= t ensures Recent(entries + [now], t, window) == Recent(log + [now], t, window) {
      RecentSnoc(entries, now, t, window);
      RecentSnoc(log, now, t, window);
    }
  }

  lemma OrderedSnoc(entries: seq<int>, log: seq<int>, now: int, window: int)
    requires Ordered(entries) && Ordered(log) && Before(log, now) && entries == Recent(log, now, window)
    ensures Ordered(entries + [now])
  {
    RecentIsSuffix(log, now, window);
  }

  lemma AcceptOne(entries: seq<int>, log: seq<int>, now: int, max: nat, window: int)
    requires max > 0 && TracksOne(entries, log, now, max, window) && entries == Recent(log, now, window)
    requires |entries| < max
    ensures TracksOne(entries + [now], log + [now], now, max, window)
  {
    AcceptKeepsSpacing(log, now, max, window);
    OrderedSnoc(entries, log, now, window);
    StandsSnoc(entries, log, now, window);
  }

  /** Each address's stored entries are its log cut to the window that ends now. */
  ghost predicate Windowed(attempts: map<Ip, seq<int>>, log: map<Ip, seq<int>>, now: int, window: int) {
    forall ip :: Entries(attempts, ip) == Recent(Entries(log, ip), now, window)
  }

  function With(m: map<Ip, seq<int>>, ip: Ip, now: int): map<Ip, seq<int>> {
    m[ip := Entries(m, ip) + [now]]
  }

  lemma WithEntries(m: map<Ip, seq<int>>, ip: Ip, now: int, k: Ip)
    ensures Entries(With(m, ip, now), k) == if k == ip then Entries(m, k) + [now] else Entries(m, k)
  {
  }

  lemma AcceptAt(attempts: map<Ip, seq<int>>, log: map<Ip, seq<int>>, ip: Ip, now: int, max: nat, window: int, k: Ip)
    requires max > 0
    requires TracksOne(Entries(attempts, k), Entries(log, k), now, max, window)
    requires Entries(attempts, k) == Recent(Entries(log, k), now, window)
    requires |Entries(attempts, ip)| < max
    ensures TracksOne(Entries(With(attempts, ip, now), k), Entries(With(log, ip, now), k), now, max, window)
    ensures 0 < window ==>
      Entries(With(attempts, ip, now), k) == Recent(Entries(With(log, ip, now), k), now, window)
  {
    WithEntries(attempts, ip, now, k);
    WithEntries(log, ip, now, k);
    if k == ip {
      AcceptOne(Entries(attempts, k), Entries(log, k), now, max, window);
      RecentSnoc(Entries(log, k), now, now, window);
    }
  }

  lemma AcceptTracks(attempts: map<Ip, seq<int>>, log: map<Ip, seq<int>>, ip: Ip, now: int, max: nat, window: int)
    requires max > 0 && Tracks(attempts, log, now, max, window) && Windowed(attempts, log, now, window)
    requires |Entries(attempts, ip)| < max
    ensures Tracks(With(attempts, ip, now), With(log, ip, now), now, max, window)
    ensures 0 < window ==> Windowed(With(attempts, ip, now), With(log, ip, now), now, window)
  {
    forall k
      ensures TracksOne(Entries(With(attempts, ip, now), k), Entries(With(log, ip, now), k), now, max, window)
      ensures 0 < window ==>
        Entries(With(attempts, ip, now), k) == Recent(Entries(With(log, ip, now), k), now, window)
    {
      AcceptAt(attempts, log, ip, now, max, window, k);
    }
  }

  // ---- The limiter itself -------------------------------------------------------------------

  class LoginRateLimiter {
    var attempts: map<Ip, seq<int>>
    const maxAttempts: nat
    const windowSecs: nat

    /** Every accepted attempt, and the clock at the last call. */
    ghost var log: map<Ip, seq<int>>
    ghost var clock: int

    ghost predicate Valid()
      reads this
    {
      0 < maxAttempts && Tracks(attempts, log, clock, maxAttempts, Nanos(windowSecs))
    }

    constructor (maxAttempts: nat, windowSecs: nat, ghost now: int)
      requires maxAttempts > 0
      ensures Valid() && clock == now && log == map[]
      ensures this.maxAttempts == maxAttempts && this.windowSecs == windowSecs
    {
      this.maxAttempts, this.windowSecs := maxAttempts, windowSecs;
      attempts, log, clock := map[], map[], now;
    }

    /** Whatever calls were made, no window of the configured length holds too many accepted attempts. */
    lemma NeverTooMany(ip: Ip, from: int)
      requires Valid()
      ensures |InWindow(Entries(log, ip), from, Nanos(windowSecs))| <= maxAttempts
    {
      assert TracksOne(Entries(attempts, ip), Entries(log, ip), clock, maxAttempts, Nanos(windowSecs));
      WindowHoldsAtMostMax(Entries(log, ip), maxAttempts, Nanos(windowSecs), from);
    }

    /** Every stored list is not empty, in order and no longer than the maximum. */
    lemma StoredLists(ip: Ip)
      requires Valid() && ip in attempts
      ensures attempts[ip] != [] && Ordered(attempts[ip]) && |attempts[ip]| <= maxAttempts
    {
      assert TracksOne(Entries(attempts, ip), Entries(log, ip), clock, maxAttempts, Nanos(windowSecs));
    }

    /** Drop what has expired at this reading of the clock, for every address. */
    method Evict(now: int)
      modifies this`attempts, this`clock
      ensures attempts == Pruned(old(attempts), now, Nanos(windowSecs)) && clock == Max(old(clock), now)
      ensures old(Valid()) && old(clock) <= now ==> Valid() && Windowed(attempts, log, now, Nanos(windowSecs))
    {
      if Valid() && clock <= now {
        PruneTracks(attempts, log, clock, now, maxAttempts, Nanos(windowSecs));
      }
      attempts := Pruned(attempts, now, Nanos(windowSecs));
      clock := Max(clock, now);
    }

    /** Append the attempt to the address's list. */
    method Record(ip: Ip, now: int)
      modifies this`attempts, this`log
      ensures attempts == With(old(attempts), ip, now) && log == With(old(log), ip, now)
      ensures old(Valid() && clock == now && Windowed(attempts, log, now, Nanos(windowSecs)))
              && |Entries(old(attempts), ip)| < maxAttempts ==>
                Valid() && (0 < windowSecs ==> Windowed(attempts, log, now, Nanos(windowSecs)))
    {
      if Valid() && clock == now && Windowed(attempts, log, now, Nanos(windowSecs))
         && |Entries(attempts, ip)| < maxAttempts
      {
        AcceptTracks(attempts, log, ip, now, maxAttempts, Nanos(windowSecs));
      }
      attempts := With(attempts, ip, now);
      log := With(log, ip, now);
    }

    static method SecondsToWait(oldest: int, now: int, window: int) returns (retryAfter: int)
      ensures retryAfter == RetryAfter(oldest, now, window)
    {
      var elapsed := Since(now, oldest);
      retryAfter := if elapsed < window then AsSecs(window - elapsed) + 1 else 1;
    }

    /** One attempt: drop what has expired everywhere, then accept and record it, or say how long to wait. Whatever
      * the clock reads, the stored entries decide. If no earlier call read a later time, the answer is the one the
      * full log gives although only the window is stored, and what is stored afterwards is each address's log cut
      * to the window. */
    method CheckRateLimit(ip: Ip, now: int) returns (result: Result<(), int>)
      requires 0 < maxAttempts
      modifies this
      ensures
        var kept := Pruned(old(attempts), now, Nanos(windowSecs));
        var entries := Entries(kept, ip);
        if |entries| < maxAttempts then
          result == Ok(()) && attempts == With(kept, ip, now) && log == With(old(log), ip, now)
        else
          result == Err(RetryAfter(entries[0], now, Nanos(windowSecs))) && attempts == kept && log == old(log)
      ensures old(Valid()) && old(clock) <= now ==>
        && Valid() && clock == now
        && result == Decide(Entries(old(log), ip), now, maxAttempts, Nanos(windowSecs))
        && (result.Err? || 0 < windowSecs ==> Windowed(attempts, log, now, Nanos(windowSecs)))
    {
      var window := Nanos(windowSecs);
      Evict(now);
      var entries := Entries(attempts, ip);
      if |entries| >= maxAttempts {
        var retryAfter := SecondsToWait(entries[0], now, window);
        return Err(retryAfter);
      }
      Record(ip, now);
      return Ok(());
    }
  }
}
