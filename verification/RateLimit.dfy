/** The UDP send limiters: at most five sends per address in a second, one broadcast in thirty. */
module RateLimit {
  /** Times are nanoseconds of a monotonic clock. */
  const SECOND := 1_000_000_000
  const UNICAST_MAX := 5
  const BROADCAST_PERIOD := 30 * SECOND

  predicate Chronological(times: seq<int>) {
    forall i, j | 0 <= i < j < |times| :: times[i] <= times[j]
  }

  /** How many of the times lie in the closed second that ends now. */
  function InLastSecond(times: seq<int>, now: int): nat {
    if times == [] then 0
    else (if now - times[0] <= 1_000_000_000 then 1 else 0) + InLastSecond(times[1..], now)
  }

  /** The history without its leading times of more than a second ago. */
  function Trim(times: seq<int>, now: int): seq<int> {
    if times != [] && now - times[0] > SECOND then Trim(times[1..], now) else times
  }

  function HistoryOf(history: map<string, seq<int>>, addr: string): seq<int> {
    if addr in history then history[addr] else []
  }

  /** One check: the trimmed history decides, and a send that passes is added to it. */
  function CheckUnicast(times: seq<int>, now: int): (seq<int>, bool) {
    var kept := Trim(times, now);
    if |kept| >= UNICAST_MAX then (kept, false) else (kept + [now], true)
  }

  class Limiter {
    var history: map<string, seq<int>>
    var lastBroadcast: int

    constructor ()
      ensures history == map[] && lastBroadcast == 0
    {
      history, lastBroadcast := map[], 0;
    }

    /** Trims the address's history in place, then refuses or records the send; other addresses are untouched. */
    method CheckUnicastRate(addr: string, now: int) returns (pass: bool)
      modifies this`history
      ensures (HistoryOf(history, addr), pass) == CheckUnicast(old(HistoryOf(history, addr)), now)
      ensures forall a | a != addr :: HistoryOf(history, a) == old(HistoryOf(history, a))
    {
      var hist := HistoryOf(history, addr);
      while |hist| > 0 && now - hist[0] > SECOND
        invariant Trim(hist, now) == Trim(old(HistoryOf(history, addr)), now)
      {
        hist := hist[1..];
      }
      if |hist| >= UNICAST_MAX {
        history := history[addr := hist];
        return false;
      }
      history := history[addr := hist + [now]];
      return true;
    }

    /** A zero time stands for "never": only another value is compared with the period. */
    method CheckBroadcastRate(now: int) returns (pass: bool)
      modifies this`lastBroadcast
      ensures (lastBroadcast, pass) == CheckBroadcast(old(lastBroadcast), now)
    {
      if lastBroadcast != 0 && now - lastBroadcast < BROADCAST_PERIOD {
        return false;
      }
      lastBroadcast := now;
      return true;
    }
  }

  // ---------- unicast against an unbounded history ----------

  datatype Send = Send(addr: string, time: int)

  predicate ChronologicalSends(sends: seq<Send>) {
    forall i, j | 0 <= i < j < |sends| :: sends[i].time <= sends[j].time
  }

  /** The limiter's state after all sends. */
  function Limited(sends: seq<Send>): map<string, seq<int>> {
    if sends == [] then map[]
    else
      var last, before := sends[|sends| - 1], Limited(sends[..|sends| - 1]);
      before[last.addr := CheckUnicast(HistoryOf(before, last.addr), last.time).0]
  }

  /** Whether the last of the sends passes. */
  predicate LastPasses(sends: seq<Send>)
    requires sends != []
  {
    var last := sends[|sends| - 1];
    CheckUnicast(HistoryOf(Limited(sends[..|sends| - 1]), last.addr), last.time).1
  }

  /** The times of all sends to an address that passed, never forgotten. */
  function Passed(sends: seq<Send>, addr: string): seq<int> {
    if sends == [] then []
    else
      var last, before := sends[|sends| - 1], Passed(sends[..|sends| - 1], addr);
      if last.addr == addr && LastPasses(sends) then before + [last.time] else before
  }

  /** The first k times are more than a second old. */
  ghost predicate StaleBefore(times: seq<int>, k: nat, now: int) {
    k <= |times| && forall i | 0 <= i < k :: now - times[i] > SECOND
  }

  /** The times from the k-th on are at most a second old. */
  ghost predicate RecentFrom(times: seq<int>, k: nat, now: int) {
    k <= |times| && forall i | k <= i < |times| :: now - times[i] <= SECOND
  }

  /** The cached history is the full one without a front part that is older than a second. */
  ghost predicate CachedTail(full: seq<int>, cached: seq<int>, clock: int) {
    exists k: nat :: StaleBefore(full, k, clock) && cached == full[k..]
  }

  lemma {:induction false} TrimIsTail(times: seq<int>, now: int) returns (k: nat)
    requires Chronological(times)
    ensures StaleBefore(times, k, now) && RecentFrom(times, k, now) && Trim(times, now) == times[k..]
  {
    if times != [] && now - times[0] > SECOND {
      k := TrimIsTail(times[1..], now);
      assert forall i | 1 <= i < |times| :: times[i] == times[1..][i - 1];
      assert times[1..][k..] == times[k + 1..];
      k := k + 1;
    } else {
      k := 0;
    }
  }

  lemma {:induction false} CountOfTail(times: seq<int>, k: nat, now: int)
    requires StaleBefore(times, k, now) && RecentFrom(times, k, now)
    ensures InLastSecond(times, now) == |times| - k
  {
    if times != [] {
      assert forall i | 0 <= i < |times| - 1 :: times[1..][i] == times[i + 1];
      CountOfTail(times[1..], if k > 0 then k - 1 else 0, now);
    }
  }

  /** Trimming a tail of the full history trims the full history. */
  lemma TrimOfTail(full: seq<int>, cached: seq<int>, clock: int, now: int) returns (k: nat)
    requires Chronological(full) && CachedTail(full, cached, clock) && clock <= now
    ensures StaleBefore(full, k, now) && RecentFrom(full, k, now) && Trim(cached, now) == full[k..]
  {
    var m: nat :| StaleBefore(full, m, clock) && cached == full[m..];
    assert forall i | 0 <= i < |cached| :: cached[i] == full[m + i];
    var n := TrimIsTail(cached, now);
    hide Trim;
    k := m + n;
    assert cached[n..] == full[k..];
    forall i | 0 <= i < k
      ensures now - full[i] > SECOND
    {
      if i >= m {
        assert full[i] == cached[i - m];
      }
    }
    forall i | k <= i < |full|
      ensures now - full[i] <= SECOND
    {
      assert full[i] == cached[i - m];
    }
  }

  /** With a cache that is the tail of the full history, a check is the check on the full history. */
  lemma CheckIsExact(full: seq<int>, cached: seq<int>, clock: int, now: int)
    requires Chronological(full) && CachedTail(full, cached, clock) && clock <= now
    ensures CheckUnicast(cached, now).1 <==> InLastSecond(full, now) < UNICAST_MAX
  {
    var k := TrimOfTail(full, cached, clock, now);
    CountOfTail(full, k, now);
    hide Trim, InLastSecond, StaleBefore, RecentFrom;
  }

  lemma {:induction false} CacheFollowsHistory(sends: seq<Send>, addr: string, clock: int)
    requires ChronologicalSends(sends) && forall i | 0 <= i < |sends| :: sends[i].time <= clock
    ensures Chronological(Passed(sends, addr)) && (forall t | t in Passed(sends, addr) :: t <= clock)
    ensures CachedTail(Passed(sends, addr), HistoryOf(Limited(sends), addr), clock)
    decreases |sends|
  {
    if sends == [] {
      assert HistoryOf(Limited(sends), addr) == Passed(sends, addr)[0..];
    } else {
      var init, last := sends[..|sends| - 1], sends[|sends| - 1];
      CacheFollowsHistory(init, addr, last.time);
      if last.addr == addr {
        AppendFollows(sends, addr);
      }
      TailAges(Passed(sends, addr), HistoryOf(Limited(sends), addr), last.time, clock);
    }
  }

  lemma TailAges(full: seq<int>, cached: seq<int>, before: int, clock: int)
    requires CachedTail(full, cached, before) && before <= clock
    ensures CachedTail(full, cached, clock)
  {
  }

  /** One more send to the address itself. */
  lemma AppendFollows(sends: seq<Send>, addr: string)
    requires sends != [] && sends[|sends| - 1].addr == addr
    requires var init, now := sends[..|sends| - 1], sends[|sends| - 1].time;
             && Chronological(Passed(init, addr)) && (forall t | t in Passed(init, addr) :: t <= now)
             && CachedTail(Passed(init, addr), HistoryOf(Limited(init), addr), now)
    ensures var now := sends[|sends| - 1].time;
            && Chronological(Passed(sends, addr)) && (forall t | t in Passed(sends, addr) :: t <= now)
            && CachedTail(Passed(sends, addr), HistoryOf(Limited(sends), addr), now)
  {
    var init, now := sends[..|sends| - 1], sends[|sends| - 1].time;
    var full, cached := Passed(init, addr), HistoryOf(Limited(init), addr);
    var k := TrimOfTail(full, cached, now, now);
    SendStep(sends, addr);
    TailGrows(full, k, now);
    hide Trim, Limited, Passed, CachedTail, Chronological, StaleBefore, RecentFrom, HistoryOf;
  }

  lemma TailGrows(full: seq<int>, k: nat, now: int)
    requires StaleBefore(full, k, now) && Chronological(full) && (forall t | t in full :: t <= now)
    ensures Chronological(full + [now]) && (forall t | t in full + [now] :: t <= now)
    ensures CachedTail(full, full[k..], now) && CachedTail(full + [now], full[k..] + [now], now)
  {
    assert forall i | 0 <= i < |full| :: full[i] in full;
    assert full[k..] + [now] == (full + [now])[k..];
    assert StaleBefore(full + [now], k, now);
  }

  /** What one more send to the address itself does to its cached and to its full history. */
  lemma SendStep(sends: seq<Send>, addr: string)
    requires sends != [] && sends[|sends| - 1].addr == addr
    ensures var init, now := sends[..|sends| - 1], sends[|sends| - 1].time;
            var (cached, pass) := CheckUnicast(HistoryOf(Limited(init), addr), now);
            && HistoryOf(Limited(sends), addr) == cached
            && Passed(sends, addr) == if pass then Passed(init, addr) + [now] else Passed(init, addr)
  {
    LimitedStep(sends);
    hide Limited, Trim;
  }

  lemma LimitedStep(sends: seq<Send>)
    requires sends != []
    ensures var before, last := Limited(sends[..|sends| - 1]), sends[|sends| - 1];
            Limited(sends) == before[last.addr := CheckUnicast(HistoryOf(before, last.addr), last.time).0]
  {
  }

  /**
   Exactness: a send passes if and only if fewer than five sends to its address passed in the closed last
   second, whatever was sent to other addresses.
   */
  lemma SendPassesIff(sends: seq<Send>)
    requires sends != [] && ChronologicalSends(sends)
    ensures var init, last := sends[..|sends| - 1], sends[|sends| - 1];
            LastPasses(sends) <==> InLastSecond(Passed(init, last.addr), last.time) < 5
  {
    var init, last := sends[..|sends| - 1], sends[|sends| - 1];
    CacheFollowsHistory(init, last.addr, last.time);
    CheckIsExact(Passed(init, last.addr), HistoryOf(Limited(init), last.addr), last.time, last.time);
  }

  lemma {:induction false} CountIsLarge(times: seq<int>, now: int, k: nat)
    requires Chronological(times) && k <= |times|
    requires forall i | k <= i < |times| :: now - times[i] <= SECOND
    ensures InLastSecond(times, now) >= |times| - k
  {
    if times != [] {
      assert forall i | 0 <= i < |times| - 1 :: times[1..][i] == times[i + 1];
      CountIsLarge(times[1..], now, if k > 0 then k - 1 else 0);
    }
  }

  /** No closed one-second window holds more than five passed sends to one address. */
  lemma {:induction false} AtMostFiveASecond(sends: seq<Send>, addr: string, i: nat)
    requires ChronologicalSends(sends) && i + 5 < |Passed(sends, addr)|
    ensures Passed(sends, addr)[i + 5] - Passed(sends, addr)[i] > 1_000_000_000
    decreases |sends|
  {
    var init, last := sends[..|sends| - 1], sends[|sends| - 1];
    var full := Passed(init, addr);
    if i + 5 < |full| {
      AtMostFiveASecond(init, addr, i);
    } else {
      CacheFollowsHistory(init, addr, last.time);
      SendPassesIff(sends);
      if last.time - full[i] <= SECOND {
        CountIsLarge(full, last.time, i);
      }
    }
  }

  // ---------- broadcast ----------

  function CheckBroadcast(last: int, now: int): (int, bool) {
    if last != 0 && now - last < BROADCAST_PERIOD then (last, false) else (now, true)
  }

  /** The time of the last broadcast that passed, 0 for none. */
  function LastBroadcast(times: seq<int>): int {
    if times == [] then 0 else CheckBroadcast(LastBroadcast(times[..|times| - 1]), times[|times| - 1]).0
  }

  predicate BroadcastPasses(times: seq<int>, i: nat)
    requires i < |times|
  {
    CheckBroadcast(LastBroadcast(times[..i]), times[i]).1
  }

  /** The last passed broadcast is the time of an attempt that passed and that no later attempt passed after. */
  lemma {:induction false} LastBroadcastIsLatest(times: seq<int>, i: nat, j: nat)
    requires Chronological(times) && i < j <= |times| && BroadcastPasses(times, i)
    ensures times[i] <= LastBroadcast(times[..j])
    ensures times[i] == LastBroadcast(times[..j])
            || (exists n | i < n < j :: BroadcastPasses(times, n) && times[n] == LastBroadcast(times[..j]))
    decreases j
  {
    assert times[..j][..j - 1] == times[..j - 1];
    if j > i + 1 {
      LastBroadcastIsLatest(times, i, j - 1);
      if BroadcastPasses(times, j - 1) {
        assert times[j - 1] == LastBroadcast(times[..j]);
      }
    }
  }

  /**
   Two broadcasts that pass are at least thirty seconds apart, unless one passed at clock value 0, which the
   limiter takes for "never broadcast".
   */
  lemma BroadcastsFarApart(times: seq<int>, i: nat, j: nat)
    requires Chronological(times) && i < j < |times|
    requires BroadcastPasses(times, i) && BroadcastPasses(times, j)
    requires forall n | i <= n < j && BroadcastPasses(times, n) :: times[n] != 0
    ensures times[j] - times[i] >= BROADCAST_PERIOD
  {
    LastBroadcastIsLatest(times, i, j);
  }

  /** Unless it is 0, the remembered time is that of an attempt that passed. */
  lemma {:induction false} RememberedPassed(times: seq<int>, j: nat) returns (n: nat)
    requires j <= |times| && LastBroadcast(times[..j]) != 0
    ensures n < j && BroadcastPasses(times, n) && times[n] == LastBroadcast(times[..j])
    decreases j
  {
    assert j > 0;
    assert times[..j][..j - 1] == times[..j - 1];
    if BroadcastPasses(times, j - 1) {
      n := j - 1;
    } else {
      n := RememberedPassed(times, j - 1);
    }
  }

  /** Every broadcast that passed before attempt i, at another clock value than 0, is at least thirty seconds old. */
  predicate PeriodIsOver(times: seq<int>, i: nat)
    requires i < |times|
  {
    forall n | 0 <= n < i && BroadcastPasses(times, n) && times[n] != 0 :: times[i] - times[n] >= 30_000_000_000
  }

  /** The one remembered time decides as the history of all passed broadcasts would, those at clock value 0 left out. */
  lemma {:induction false} BroadcastPassesIff(times: seq<int>, i: nat)
    requires Chronological(times) && i < |times|
    ensures BroadcastPasses(times, i) <==> PeriodIsOver(times, i)
    decreases i
  {
    var last := LastBroadcast(times[..i]);
    if BroadcastPasses(times, i) {
      forall n | 0 <= n < i && BroadcastPasses(times, n) && times[n] != 0
        ensures times[i] - times[n] >= BROADCAST_PERIOD
      {
        LastBroadcastIsLatest(times, n, i);
        if last == 0 {
          var m :| n < m < i && BroadcastPasses(times, m) && times[m] == 0;
          BroadcastPassesIff(times, m);
        }
      }
    } else {
      var n := RememberedPassed(times, i);
    }
  }

  /** While every attempt is at clock value 0 nothing is remembered. */
  lemma {:induction false} ZeroIsForgotten(times: seq<int>, i: nat)
    requires i <= |times| && forall n | 0 <= n < i :: times[n] == 0
    ensures LastBroadcast(times[..i]) == 0
  {
    if i > 0 {
      ZeroIsForgotten(times, i - 1);
      assert times[..i][..i - 1] == times[..i - 1];
    }
  }

  /** All broadcasts that pass are at least thirty seconds apart. */
  predicate AllFarApart(times: seq<int>) {
    forall i, j | 0 <= i < j < |times| && BroadcastPasses(times, i) && BroadcastPasses(times, j) ::
      times[j] - times[i] >= 30_000_000_000
  }

  /** Thirty seconds pass behind every attempt at clock value 0 before the next attempt. */
  predicate PauseBehindZero(times: seq<int>) {
    forall i, j | 0 <= i < j < |times| && times[i] == 0 :: times[j] >= 30_000_000_000
  }

  /**
   The limiter keeps passed broadcasts thirty seconds apart exactly when no attempt follows one at clock value 0,
   which the limiter takes for "never broadcast", by less than that.
   */
  lemma BroadcastsFarApartIff(times: seq<int>)
    requires Chronological(times) && forall i | 0 <= i < |times| :: times[i] >= 0
    ensures AllFarApart(times) <==> PauseBehindZero(times)
  {
    if PauseBehindZero(times) {
      forall i, j | 0 <= i < j < |times| && BroadcastPasses(times, i) && BroadcastPasses(times, j)
        ensures times[j] - times[i] >= BROADCAST_PERIOD
      {
        if times[i] != 0 {
          BroadcastsFarApart(times, i, j);
        }
      }
    } else {
      var i, j :| 0 <= i < j < |times| && times[i] == 0 && times[j] < BROADCAST_PERIOD;
      ZeroIsForgotten(times, i);
      ZeroIsForgotten(times, i + 1);
      assert BroadcastPasses(times, i) && BroadcastPasses(times, i + 1);
      assert times[i + 1] - times[i] < BROADCAST_PERIOD;
    }
  }

  /** Two attempts in the first two nanoseconds of the clock both pass. */
  lemma BroadcastsAtZeroAreClose()
    ensures BroadcastPasses([0, 1], 0) && BroadcastPasses([0, 1], 1) && !AllFarApart([0, 1])
  {
    ZeroIsForgotten([0, 1], 0);
    ZeroIsForgotten([0, 1], 1);
    assert BroadcastPasses([0, 1], 0) && BroadcastPasses([0, 1], 1);
  }
}
