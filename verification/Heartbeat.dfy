/** The heartbeat recorder: the set of beats held for two hours, the earliest time ever seen, and
    the drop rate over the time between. */
module Heartbeat {
  import opened Arith
  import opened Clock
  import opened Sets

  /** `ReceivedCount` is a 16-bit number. */
  const COUNT_LIMIT: nat := 65536

  datatype HeartbeatSummary = HeartbeatSummary(duration: int, receivedCount: nat, received: bool, droprate: real)

  // ---------------------------------------------------------------- arithmetic

  /** `d.Seconds()`. */
  function Seconds(d: int): (s: real)
    ensures d >= 0 <==> s >= 0.0
  {
    d as real / 1000000000.0
  }

  /** How many beats two hours should bring. */
  function FullCycle(interval: real): int
    requires interval > 0.0
  {
    (Seconds(EXPIRED_INTERVAL) / interval).Floor
  }

  function ExpectedCount(duration: int, interval: real): int
    requires interval > 0.0
  {
    if duration < EXPIRED_INTERVAL then (Seconds(duration) / interval).Floor else FullCycle(interval)
  }

  /** `duration` nanoseconds, cut off at two hours, hold `n` intervals (of `interval` seconds). */
  predicate Holds(duration: int, n: int, interval: real) {
    && 1000000000.0 * (n as real * interval) <= duration as real
    && 1000000000.0 * (n as real * interval) <= 7200000000000.0
  }

  /** At least `n` beats are expected exactly when the duration holds `n` intervals. */
  lemma {:induction false} ExpectedAtLeastIff(duration: int, n: int, interval: real)
    requires interval > 0.0
    ensures n <= ExpectedCount(duration, interval) <==> Holds(duration, n, interval)
  {
    var covered := Seconds(if duration < EXPIRED_INTERVAL then duration else EXPIRED_INTERVAL);
    assert ExpectedCount(duration, interval) == (covered / interval).Floor;
    if covered < n as real * interval {
      QuotientBelow(covered, n as real, interval);
    } else {
      QuotientAbove(covered, n as real, interval);
    }
  }

  /** The expected count is the number of whole intervals in the time covered, cut off at two hours. */
  lemma {:induction false} ExpectedIsWholeIntervals(duration: int, interval: real)
    requires interval > 0.0
    ensures Holds(duration, ExpectedCount(duration, interval), interval)
    ensures !Holds(duration, ExpectedCount(duration, interval) + 1, interval)
  {
    ExpectedAtLeastIff(duration, ExpectedCount(duration, interval), interval);
    ExpectedAtLeastIff(duration, ExpectedCount(duration, interval) + 1, interval);
  }

  /** `droprate`: the share of the expected beats that is missing, never negative, never 1. */
  function DropRate(actualReceived: nat, duration: int, interval: real): (r: real)
    requires interval > 0.0
    ensures 0.0 <= r < 1.0
    ensures r == 0.0 <==> actualReceived == 0 || ExpectedCount(duration, interval) <= actualReceived
    ensures r > 0.0 ==> r * ExpectedCount(duration, interval) as real
                        == (ExpectedCount(duration, interval) - actualReceived) as real
  {
    var expected := ExpectedCount(duration, interval);
    if actualReceived == 0 || expected == 0 || actualReceived >= expected then 0.0
    else
      Fraction(expected - actualReceived, expected);
      (expected - actualReceived) as real / expected as real
  }

  /** `chooseClosestLatestReceiveTime`. */
  function Closest(latest: int, now: int, interval: real): int {
    if Seconds(Sub(now, latest)) >= interval then now else latest
  }

  // ---------------------------------------------------------------- the state

  datatype State = State(beats: set<int>, earliest: int, received: bool)

  lemma {:induction false} MinExists(s: set<int>)
    requires s != {}
    ensures exists m :: m in s && forall x | x in s :: m <= x
    decreases |s|
  {
    var x := Pick(s);
    if s == {x} {
      assert forall y | y in s :: x <= y;
    } else {
      assert s == (s - {x}) + {x};
      MinExists(s - {x});
      var m :| m in s - {x} && forall y | y in s - {x} :: m <= y;
      var k := if x < m then x else m;
      assert k in s && forall y | y in s :: k <= y;
    }
  }

  ghost function MinTime(s: set<int>): (m: int)
    requires s != {}
    ensures m in s && forall x | x in s :: m <= x
  {
    MinExists(s);
    var m :| m in s && forall x | x in s :: m <= x;
    m
  }

  lemma {:induction false} MaxExists(s: set<int>)
    requires s != {}
    ensures exists m :: m in s && forall x | x in s :: x <= m
    decreases |s|
  {
    var x := Pick(s);
    if s == {x} {
      assert forall y | y in s :: y <= x;
    } else {
      assert s == (s - {x}) + {x};
      MaxExists(s - {x});
      var m :| m in s - {x} && forall y | y in s - {x} :: y <= m;
      var k := if x > m then x else m;
      assert k in s && forall y | y in s :: y <= k;
    }
  }

  ghost function MaxTime(s: set<int>): (m: int)
    requires s != {}
    ensures m in s && forall x | x in s :: x <= m
  {
    MaxExists(s);
    var m :| m in s && forall x | x in s :: x <= m;
    m
  }

  /** The earliest and the latest time known to a summary. */
  ghost function Earliest(s: State): int {
    MinTime(s.beats + {s.earliest})
  }

  ghost function Latest(s: State): int {
    MaxTime(s.beats + {s.earliest})
  }

  function AddBeat(s: State, t: int): State {
    s.(beats := s.beats + {t}, received := true)
  }

  /** `cleanupExpiredHeartbeat`: beats more than two hours old go. */
  function Sweep(s: State, now: int): State {
    s.(beats := set t | t in s.beats && now <= t + EXPIRED_INTERVAL)
  }

  /** The state after a summary, which remembers the earliest time. */
  ghost function Summarised(s: State): State {
    s.(earliest := Earliest(s))
  }

  ghost function DurationOf(s: State, now: int, interval: real): int {
    Sub(Closest(Latest(s), now, interval), Earliest(s))
  }

  /** `first` and `last` are the earliest and the latest of `ts`. */
  ghost predicate Extremes(ts: set<int>, first: int, last: int) {
    first in ts && last in ts && forall t | t in ts :: first <= t <= last
  }

  lemma {:induction false} ExtremesAreUnique(s: State, first: int, last: int)
    requires Extremes(s.beats + {s.earliest}, first, last)
    ensures first == Earliest(s) && last == Latest(s)
  {
  }

  /** What a duration means for the known times `ts`: it runs from the earliest of them to the latest
      or, when that lies an interval of `interval` seconds or more in the past, to now. */
  ghost predicate Covers(duration: int, ts: set<int>, now: int, interval: real) {
    forall first, last | Extremes(ts, first, last) ::
      duration == Sub(if Sub(now, last) as real >= 1000000000.0 * interval then now else last, first)
  }

  lemma {:induction false} DurationCovers(s: State, now: int, interval: real)
    ensures Covers(DurationOf(s, now, interval), s.beats + {s.earliest}, now, interval)
  {
    forall first, last | Extremes(s.beats + {s.earliest}, first, last)
      ensures first == Earliest(s) && last == Latest(s)
    {
      ExtremesAreUnique(s, first, last);
    }
    ClosestMeans(Latest(s), now, interval);
  }

  lemma {:induction false} ClosestMeans(last: int, now: int, interval: real)
    ensures Closest(last, now, interval) == if Sub(now, last) as real >= 1000000000.0 * interval then now else last
  {
  }

  ghost function SummaryOf(s: State, now: int, interval: real): HeartbeatSummary
    requires interval > 0.0
  {
    var count := |s.beats| % COUNT_LIMIT;
    var duration := DurationOf(s, now, interval);
    HeartbeatSummary(duration, count, s.received, DropRate(count, duration, interval))
  }

  // ---------------------------------------------------------------- the object

  class Recorder {
    /** Receive time to expiry time. */
    var data: map<int, int>
    var earliest: int
    var received: bool
    const interval: real

    ghost predicate Valid()
      reads this
    {
      interval > 0.0 && forall k | k in data :: data[k] == k + EXPIRED_INTERVAL
    }

    ghost function Value(): State
      reads this
    {
      State(data.Keys, earliest, received)
    }

    constructor (interval: real, now: int)
      requires interval > 0.0
      ensures Valid() && Value() == State({}, now, false) && this.interval == interval
    {
      this.interval := interval;
      data, earliest, received := map[], now, false;
    }

    method Add(t: int)
      requires Valid()
      modifies this
      ensures Valid() && Value() == AddBeat(old(Value()), t)
      ensures received && data.Keys == old(data.Keys) + {t} && earliest == old(earliest)
    {
      if !received {
        received := true;
      }
      data := data[t := t + EXPIRED_INTERVAL];
    }

    /** `cleanupExpiredHeartbeat`; the map is visited in no particular order. */
    method CleanupExpired(now: int)
      requires Valid()
      modifies this`data
      ensures Valid() && Value() == Sweep(old(Value()), now)
      ensures forall t :: t in data <==> t in old(data) && now - t <= 7_200_000_000_000
    {
      var rest := data.Keys;
      while rest != {}
        invariant Valid() && rest <= data.Keys <= old(data.Keys)
        invariant forall k | k in old(data.Keys) - rest :: k in data <==> now <= k + EXPIRED_INTERVAL
        invariant forall k | k in rest :: k in data
        decreases rest
      {
        ghost var witnessOfRest := Pick(rest);  // shows that there is a key to choose
        var k :| k in rest;
        if now > data[k] {
          data := data - {k};
        }
        rest := rest - {k};
      }
    }

    /** `durationFromEarliestReceive`. */
    method DurationFromEarliestReceive(now: int) returns (duration: int, earliestTime: int)
      ensures duration == DurationOf(Value(), now, interval) && earliestTime == Earliest(Value())
      ensures Covers(duration, data.Keys + {earliest}, now, interval)
      ensures earliestTime in data.Keys + {earliest} && forall t | t in data.Keys + {earliest} :: earliestTime <= t
    {
      var first, last := earliest, earliest;
      var rest := data.Keys;
      while rest != {}
        invariant rest <= data.Keys
        invariant first in data.Keys + {earliest} && last in data.Keys + {earliest}
        invariant first <= earliest <= last
        invariant forall k | k in data && k !in rest :: first <= k <= last
        decreases rest
      {
        ghost var witnessOfRest := Pick(rest);  // shows that there is a key to choose
        var k :| k in rest;
        if first > k {
          first := k;
        }
        if last < k {
          last := k;
        }
        rest := rest - {k};
      }
      assert forall k | k in data.Keys + {earliest} :: first <= k <= last;
      assert first == Earliest(Value()) && last == Latest(Value());
      duration := Sub(Closest(last, now, interval), first);
      earliestTime := first;
      DurationCovers(Value(), now, interval);
    }

    /** `Summary`: the share that is missing of the intervals between the earliest known time and the
        latest or, after a silence, now. */
    method Summary(now: int) returns (summary: HeartbeatSummary)
      requires Valid()
      modifies this`earliest
      ensures Valid() && Value() == Summarised(old(Value()))
      ensures summary == SummaryOf(old(Value()), now, interval)
      ensures Covers(summary.duration, data.Keys + {old(earliest)}, now, interval)
      ensures summary.receivedCount == |data| % 65536 && summary.received == received == old(received)
      ensures summary.droprate == DropRate(summary.receivedCount, summary.duration, interval)
      ensures data == old(data) && earliest <= old(earliest) && forall t | t in data :: earliest <= t
    {
      var count := |data| % COUNT_LIMIT;
      var duration, earliestTime := DurationFromEarliestReceive(now);
      if earliestTime < earliest {
        earliest := earliestTime;
      }
      summary := HeartbeatSummary(duration, count, received, DropRate(count, duration, interval));
    }
  }
}
