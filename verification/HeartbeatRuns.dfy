/** What the heartbeat recorder reports over whole runs. */
module HeartbeatRuns {
  import opened Arith
  import opened Clock
  import opened Heartbeat
  import opened Sets

  datatype Event = Beat(t: int) | Cleanup(now: int) | Summarise

  ghost function Run(created: int, events: seq<Event>, n: nat): State
    requires n <= |events|
  {
    if n == 0 then State({}, created, false)
    else
      var s := Run(created, events, n - 1);
      match events[n - 1]
      case Beat(t) => AddBeat(s, t)
      case Cleanup(now) => Sweep(s, now)
      case Summarise => Summarised(s)
  }

  /** All beats ever received. */
  function Beats(events: seq<Event>, n: nat): set<int>
    requires n <= |events|
  {
    if n == 0 then {}
    else if events[n - 1].Beat? then Beats(events, n - 1) + {events[n - 1].t}
    else Beats(events, n - 1)
  }

  /** No cleanup happens after `now`. */
  ghost predicate CleanedBy(events: seq<Event>, n: nat, now: int)
    requires n <= |events|
  {
    forall k | 0 <= k < n && events[k].Cleanup? :: events[k].now <= now
  }

  /** Of the beats `a`, the state holds at least those of the two hours before `now`, and its
      earliest time is the creation time or an earlier beat. */
  ghost predicate HoldsRecent(s: State, a: set<int>, created: int, now: int) {
    && s.beats <= a
    && (forall t | t in a && now - t <= 7_200_000_000_000 :: t in s.beats)
    && s.earliest in a + {created} && s.earliest <= created
  }

  /** Whatever the interleaving, a beat younger than two hours is held, nothing is held that was
      not received, and the earliest time is the creation time or an earlier beat. */
  lemma {:induction false} HeldBeats(created: int, events: seq<Event>, n: nat, now: int)
    requires n <= |events| && CleanedBy(events, n, now)
    ensures HoldsRecent(Run(created, events, n), Beats(events, n), created, now)
    ensures Run(created, events, n).received <==> Beats(events, n) != {}
  {
    if n > 0 {
      HeldBeats(created, events, n - 1, now);
    }
  }

  // ---------------------------------------------------------------- no false alarm

  ghost function After(a: set<int>, t: int): set<int> {
    set x | x in a && x > t
  }

  /** Consecutive beats are at most an interval apart. */
  ghost predicate Linked(a: set<int>, interval: real) {
    forall t {:trigger After(a, t)} | t in a && After(a, t) != {} ::
      Seconds(MinTime(After(a, t)) - t) <= interval
  }

  /** The beats come regularly: the first within an interval of the creation, each within an
      interval of the one before, and the last less than an interval before `now`. */
  ghost predicate Steady(a: set<int>, created: int, now: int, interval: real) {
    a == {} || (Seconds(MinTime(a) - created) <= interval && Linked(a, interval)
                && Seconds(now - MaxTime(a)) < interval)
  }

  /** The length of `n` intervals. */
  ghost function Intervals(n: nat, interval: real): real {
    if n == 0 then 0.0 else Intervals(n - 1, interval) + interval
  }

  lemma {:induction false} IntervalsIsProduct(n: nat, interval: real)
    ensures Intervals(n, interval) == n as real * interval
  {
    if n > 0 {
      IntervalsIsProduct(n - 1, interval);
    }
  }

  lemma {:induction false} IntervalsMonotone(m: nat, n: nat, interval: real)
    requires m <= n && interval > 0.0
    ensures Intervals(m, interval) <= Intervals(n, interval)
  {
    if m < n {
      IntervalsMonotone(m, n - 1, interval);
    }
  }

  lemma {:induction false} LaterBeats(a: set<int>, p: int, u: int)
    requires u in a && p < u
    ensures |After(a, u)| + 1 <= |After(a, p)|
  {
    SubsetSize(After(a, u) + {u}, After(a, p));
    assert |After(a, u) + {u}| == |After(a, u)| + 1;
  }

  /** Counting links: the time from `p` to the last beat is at most one interval per later beat. */
  lemma {:induction false} Chain(a: set<int>, p: int, interval: real)
    requires p in a && interval > 0.0 && Linked(a, interval)
    ensures Seconds(MaxTime(a) - p) <= Intervals(|After(a, p)|, interval)
    decreases |After(a, p)|
  {
    if p == MaxTime(a) {
      assert After(a, p) == {};
    } else {
      assert MaxTime(a) in After(a, p);
      var u := MinTime(After(a, p));
      LaterBeats(a, p, u);
      Chain(a, u, interval);
      IntervalsMonotone(|After(a, u)| + 1, |After(a, p)|, interval);
    }
  }

  /** If the time covered, cut off at two hours, is below `m + 1` intervals, at most `m` beats
      are expected. */
  lemma {:induction false} ExpectedAtMost(duration: int, m: nat, interval: real)
    requires interval > 0.0
    requires Seconds(if duration < EXPIRED_INTERVAL then duration else EXPIRED_INTERVAL) < Intervals(m + 1, interval)
    ensures ExpectedCount(duration, interval) <= m
  {
    IntervalsIsProduct(m + 1, interval);
    var covered := if duration < EXPIRED_INTERVAL then duration else EXPIRED_INTERVAL;
    QuotientBelow(Seconds(covered), (m + 1) as real, interval);
  }

  /** Nothing has been dropped: the time covered is at most one interval per beat. */
  lemma {:induction false} AllHeldCover(s: State, created: int, now: int, interval: real)
    requires s.beats != {} && interval > 0.0 && created <= now
    requires Steady(s.beats, created, now, interval)
    requires s.earliest in s.beats + {created} && s.earliest <= created
    ensures Seconds(Latest(s) - Earliest(s)) <= Intervals(|s.beats|, interval)
  {
    var a := s.beats;
    var first, last := MinTime(a), MaxTime(a);
    Chain(a, first, interval);
    SubsetSize(After(a, first) + {first}, a);
    IntervalsMonotone(|After(a, first)| + 1, |a|, interval);
    assert Earliest(s) == if s.earliest < first then s.earliest else first;
    assert Latest(s) == if s.earliest > last then s.earliest else last;
  }

  lemma {:induction false} RecentTime(p: int, last: int, now: int, k: nat, m: nat, interval: real)
    requires interval > 0.0 && k <= m && p + EXPIRED_INTERVAL < now
    requires Seconds(last - p) <= Intervals(k, interval) && Seconds(now - last) < interval
    ensures Seconds(EXPIRED_INTERVAL) < Intervals(m + 1, interval)
  {
    IntervalsMonotone(k, m, interval);
    assert Seconds(now - p) == Seconds(now - last) + Seconds(last - p);
  }

  /** The last beat older than two hours. */
  lemma {:induction false} LastStale(a: set<int>, held: set<int>, now: int) returns (p: int)
    requires forall t | t in a && now <= t + EXPIRED_INTERVAL :: t in held
    requires held <= a && held != a
    ensures p in a && p + EXPIRED_INTERVAL < now
    ensures After(a, p) <= held
  {
    var r := LeftOut(a, held);
    var stale := set t | t in a && t + EXPIRED_INTERVAL < now;
    assert r in stale;
    p := MaxTime(stale);
    forall x | x in After(a, p) ensures x in held {
      assert x !in stale;
    }
  }

  /** Something has been dropped: the beats of the last two hours, all held, cover that time up to
      one interval. */
  lemma {:induction false} RecentCover(a: set<int>, held: set<int>, now: int, interval: real)
    requires a != {} && interval > 0.0 && Linked(a, interval) && Seconds(now - MaxTime(a)) < interval
    requires forall t | t in a && now <= t + EXPIRED_INTERVAL :: t in held
    requires held <= a && held != a
    ensures Seconds(EXPIRED_INTERVAL) < Intervals(|held| + 1, interval)
  {
    var p := LastStale(a, held, now);
    Chain(a, p, interval);
    SubsetSize(After(a, p), held);
    RecentTime(p, MaxTime(a), now, |After(a, p)|, |held|, interval);
  }

  lemma {:induction false} ClosestIsLatest(s: State, now: int, interval: real)
    requires s.beats != {} && interval > 0.0 && Seconds(now - MaxTime(s.beats)) < interval
    ensures Closest(Latest(s), now, interval) == Latest(s)
  {
    assert MaxTime(s.beats) <= Latest(s);
    assert Sub(now, Latest(s)) <= now - Latest(s) || Sub(now, Latest(s)) < 0;
  }

  /** A state that holds all beats or all recent ones expects no more beats than it holds. */
  lemma {:induction false} EnoughHeld(s: State, a: set<int>, created: int, now: int, interval: real)
    requires s.beats != {} && interval > 0.0 && created <= now && Steady(a, created, now, interval)
    requires HoldsRecent(s, a, created, now)
    ensures ExpectedCount(DurationOf(s, now, interval), interval) <= |s.beats|
  {
    if s.beats == a {
      AllHeldCover(s, created, now, interval);
      ClosestIsLatest(s, now, interval);
    } else {
      RecentCover(a, s.beats, now, interval);
    }
    ExpectedAtMost(DurationOf(s, now, interval), |s.beats|, interval);
  }

  lemma {:induction false} CountFits(s: State)
    requires |s.beats| < COUNT_LIMIT
    ensures |s.beats| % COUNT_LIMIT == |s.beats|
  {
  }

  lemma {:induction false} NoDropWhenEnough(s: State, now: int, interval: real)
    requires interval > 0.0 && |s.beats| < COUNT_LIMIT
    requires s.beats != {} ==> ExpectedCount(DurationOf(s, now, interval), interval) <= |s.beats|
    ensures SummaryOf(s, now, interval).droprate == 0.0
  {
    CountFits(s);
    var rate := DropRate(|s.beats|, DurationOf(s, now, interval), interval);
    assert rate == 0.0;
  }

  /** Main result: while beats come regularly, under any interleaving of beats, summaries and
      cleanups, a drop is reported if and only if the 16-bit count has wrapped to a positive number
      below the expected one. */
  lemma {:induction false} FalseAlarmIff(created: int, events: seq<Event>, n: nat, now: int, interval: real)
    requires n <= |events| && interval > 0.0 && created <= now && CleanedBy(events, n, now)
    requires Steady(Beats(events, n), created, now, interval)
    ensures var s := Run(created, events, n);
            var summary, count := SummaryOf(s, now, interval), |s.beats| % 65536;
            summary.droprate > 0.0
            <==> |s.beats| >= 65536 && count > 0 && Holds(summary.duration, count + 1, interval)
  {
    var s := Run(created, events, n);
    HeldBeats(created, events, n, now);
    if s.beats != {} {
      EnoughHeld(s, Beats(events, n), created, now, interval);
    }
    if |s.beats| < COUNT_LIMIT {
      NoDropWhenEnough(s, now, interval);
    } else {
      RateIsPositiveIff(s, now, interval);
    }
  }

  lemma {:induction false} RateIsPositiveIff(s: State, now: int, interval: real)
    requires interval > 0.0
    ensures var summary, count := SummaryOf(s, now, interval), |s.beats| % 65536;
            summary.droprate > 0.0 <==> count > 0 && Holds(summary.duration, count + 1, interval)
  {
    var count := |s.beats| % COUNT_LIMIT;
    var rate := DropRate(count, DurationOf(s, now, interval), interval);
    assert SummaryOf(s, now, interval).droprate == rate;
    ExpectedAtLeastIff(DurationOf(s, now, interval), count + 1, interval);
  }

  /** Below the wrap, regular beats never give a drop, neither within the first two hours nor later. */
  lemma {:induction false} NoFalseAlarm(created: int, events: seq<Event>, n: nat, now: int, interval: real)
    requires n <= |events| && interval > 0.0 && created <= now && CleanedBy(events, n, now)
    requires Steady(Beats(events, n), created, now, interval)
    requires |Run(created, events, n).beats| < 65536
    ensures SummaryOf(Run(created, events, n), now, interval).droprate == 0.0
  {
    FalseAlarmIff(created, events, n, now, interval);
  }

  // ---------------------------------------------------------------- silence

  /** A beat at `t` came, and no cleanup since has found it more than two hours old. */
  ghost predicate StillHeld(events: seq<Event>, n: nat, t: int) {
    exists k :: 0 <= k < n <= |events| && events[k] == Beat(t) && KeptSince(events, k, n, t)
  }

  ghost predicate KeptSince(events: seq<Event>, k: int, n: nat, t: int)
    requires n <= |events|
  {
    forall i: nat | k < i < n && events[i].Cleanup? :: events[i].now - t <= 7_200_000_000_000
  }

  ghost function Held(events: seq<Event>, n: nat): set<int>
    requires n <= |events|
  {
    set t | t in Beats(events, n) && StillHeld(events, n, t)
  }

  lemma {:induction false} StillHeldStep(events: seq<Event>, n: nat, t: int)
    requires 0 < n <= |events|
    ensures StillHeld(events, n, t)
            <==> || events[n - 1] == Beat(t)
                 || (StillHeld(events, n - 1, t) && KeptSince(events, n - 2, n, t))
  {
    if events[n - 1] == Beat(t) {
      assert KeptSince(events, n - 1, n, t);
    } else if StillHeld(events, n, t) {
      var k :| 0 <= k < n && events[k] == Beat(t) && KeptSince(events, k, n, t);
      assert KeptSince(events, k, n - 1, t);
    }
  }

  /** What is held is exact, for any times in any order: the beats that no cleanup after them has found
      more than two hours old. */
  lemma {:induction false} HeldIsExact(created: int, events: seq<Event>, n: nat)
    requires n <= |events|
    ensures Run(created, events, n).beats == Held(events, n)
  {
    if n > 0 {
      HeldIsExact(created, events, n - 1);
      forall t ensures t in Run(created, events, n).beats <==> t in Held(events, n) {
        StillHeldStep(events, n, t);
      }
    }
  }

  /** The time is not forgotten: it is the creation, it is held, or it was held at a summary. */
  ghost predicate Remembered(events: seq<Event>, n: nat, created: int, t: int) {
    || t == created || StillHeld(events, n, t) || SeenBySummary(events, n, t)
  }

  ghost predicate SeenBySummary(events: seq<Event>, n: nat, t: int) {
    exists k :: 0 <= k < n <= |events| && events[k] == Summarise && StillHeld(events, k, t)
  }

  lemma {:induction false} HeldWasReceived(events: seq<Event>, n: nat, k: nat)
    requires k < n <= |events| && events[k].Beat?
    ensures events[k].t in Beats(events, n)
  {
    if k < n - 1 {
      HeldWasReceived(events, n - 1, k);
    }
  }

  lemma {:induction false} SummaryStep(events: seq<Event>, n: nat, t: int)
    requires 0 < n <= |events|
    ensures SeenBySummary(events, n, t)
            <==> SeenBySummary(events, n - 1, t) || (events[n - 1] == Summarise && StillHeld(events, n - 1, t))
  {
  }

  ghost predicate NoneBefore(events: seq<Event>, n: nat, created: int, first: int)
    requires n <= |events|
  {
    first <= created && forall t | t in Beats(events, n) :: first <= t
  }

  /** A state that knows no time before `first` has it as the earliest when it knows it. */
  lemma {:induction false} EarliestIs(s: State, first: int)
    requires first <= s.earliest && forall t | t in s.beats :: first <= t
    ensures Earliest(s) >= first && (Earliest(s) == first <==> s.earliest == first || first in s.beats)
  {
  }

  lemma {:induction false} HeldIff(created: int, events: seq<Event>, n: nat, t: int)
    requires n <= |events|
    ensures t in Run(created, events, n).beats <==> StillHeld(events, n, t)
    ensures Run(created, events, n).beats <= Beats(events, n)
  {
    HeldIsExact(created, events, n);
    if StillHeld(events, n, t) {
      var k :| 0 <= k < n && events[k] == Beat(t) && KeptSince(events, k, n, t);
      HeldWasReceived(events, n, k);
    }
  }

  lemma {:induction false} RememberedIff(created: int, events: seq<Event>, n: nat, first: int)
    requires n <= |events| && NoneBefore(events, n, created, first)
    ensures var s := Run(created, events, n);
            s.earliest >= first && (s.earliest == first <==> first == created || SeenBySummary(events, n, first))
  {
    if n > 0 {
      assert Beats(events, n - 1) <= Beats(events, n);
      RememberedIff(created, events, n - 1, first);
      SummaryStep(events, n, first);
      HeldIff(created, events, n - 1, first);
      if events[n - 1] == Summarise {
        EarliestIs(Run(created, events, n - 1), first);
      }
    }
  }

  /** Whatever the interleaving: once the node has been silent for an interval, a summary covers the
      time from the earliest known time to now; that is the first of the creation and all beats exactly
      when it is not forgotten. */
  lemma {:induction false} SilenceCounts(created: int, events: seq<Event>, n: nat, now: int, interval: real,
                                         first: int, last: int)
    requires n <= |events| && interval > 0.0
    requires Extremes(Beats(events, n) + {created}, first, last)
    requires Sub(now, last) as real >= 1000000000.0 * interval
    ensures var s := Run(created, events, n);
            && SummaryOf(s, now, interval).duration == Sub(now, Earliest(s))
            && (Earliest(s) == first <==> Remembered(events, n, created, first))
  {
    var s := Run(created, events, n);
    assert NoneBefore(events, n, created, first);
    RememberedIff(created, events, n, first);
    HeldIff(created, events, n, first);
    EarliestIs(s, first);
    LatestIsReceived(created, events, n);
    assert Sub(now, Latest(s)) >= Sub(now, last);
  }

  lemma {:induction false} LatestIsReceived(created: int, events: seq<Event>, n: nat)
    requires n <= |events|
    ensures Run(created, events, n).earliest in Beats(events, n) + {created}
    ensures Latest(Run(created, events, n)) in Beats(events, n) + {created}
  {
    HeldIsExact(created, events, n);
    if n > 0 {
      LatestIsReceived(created, events, n - 1);
      HeldIsExact(created, events, n - 1);
    }
  }

  /** Saturation does not matter, as it lies far beyond two hours. */
  lemma {:induction false} SaturatedHolds(now: int, first: int, n: int, interval: real)
    requires now >= first
    ensures Holds(Sub(now, first), n, interval) <==> Holds(now - first, n, interval)
  {
  }

  /** Main result: after such a silence a drop is reported exactly when the 16-bit count of held beats
      is positive and the time since the first beat or the creation, cut off at two hours, holds more
      intervals than that. `SilenceCounts` says exactly when the first time is not forgotten. */
  lemma {:induction false} SilenceIff(created: int, events: seq<Event>, n: nat, now: int, interval: real,
                                      first: int, last: int)
    requires n <= |events| && interval > 0.0 && Remembered(events, n, created, first)
    requires Extremes(Beats(events, n) + {created}, first, last)
    requires Sub(now, last) as real >= 1000000000.0 * interval
    ensures var s := Run(created, events, n);
            var count := |Held(events, n)| % 65536;
            SummaryOf(s, now, interval).droprate > 0.0 <==> count > 0 && Holds(now - first, count + 1, interval)
  {
    var s := Run(created, events, n);
    HeldIsExact(created, events, n);
    SilenceCounts(created, events, n, now, interval, first, last);
    RateIsPositiveIff(s, now, interval);
    SaturatedHolds(now, first, |s.beats| % 65536 + 1, interval);
  }

  /** A silent node in figures: created at `t`, one beat a minute later and a summary after twenty
      minutes, at an interval of 60 seconds. Of the 20 beats expected 19 are missing. */
  lemma {:induction false} SilentNodeReported(t: int)
    ensures SummaryOf(Run(t, [Beat(t + 60_000_000_000)], 1), t + 1_200_000_000_000, 60.0)
            == HeartbeatSummary(1_200_000_000_000, 1, true, 0.95)
  {
    var s := Run(t, [Beat(t + 60_000_000_000)], 1);
    assert Run(t, [Beat(t + 60_000_000_000)], 0) == State({}, t, false);
    assert s == State({t + 60_000_000_000}, t, true);
    assert Earliest(s) == t && Latest(s) == t + 60_000_000_000;
  }

  // ---------------------------------------------------------------- a run that wraps the count

  /** The time of beat `k` when beats start at the creation and come every `gap`. */
  function BeatTime(created: int, gap: int, k: nat): int {
    if k == 0 then created else BeatTime(created, gap, k - 1) + gap
  }

  function RegularBeats(created: int, gap: int, n: nat): (events: seq<Event>)
    ensures |events| == n
  {
    if n == 0 then [] else RegularBeats(created, gap, n - 1) + [Beat(BeatTime(created, gap, n - 1))]
  }

  lemma {:induction false} BeatTimeIsProduct(created: int, gap: int, k: nat)
    ensures BeatTime(created, gap, k) == created + k * gap
  {
    if k > 0 {
      BeatTimeIsProduct(created, gap, k - 1);
    }
  }

  lemma {:induction false} RunPrefix(created: int, events: seq<Event>, e: Event, n: nat)
    requires n <= |events|
    ensures Run(created, events + [e], n) == Run(created, events, n)
    ensures Beats(events + [e], n) == Beats(events, n)
  {
    if n > 0 {
      RunPrefix(created, events, e, n - 1);
    }
  }

  lemma {:induction false} ExtendTimes(a: set<int>, last: int)
    requires a != {} && last > MaxTime(a)
    ensures MaxTime(a + {last}) == last && MinTime(a + {last}) == MinTime(a)
  {
  }

  lemma {:induction false} NextTime(a: set<int>, gap: int, t: int)
    requires a != {} && gap > 0 && t in a
    ensures After(a + {MaxTime(a) + gap}, t) == After(a, t) + {MaxTime(a) + gap}
    ensures MinTime(After(a + {MaxTime(a) + gap}, t)) - t
            == if After(a, t) == {} then gap else MinTime(After(a, t)) - t
  {
    var last := MaxTime(a) + gap;
    if After(a, t) == {} {
      assert MaxTime(a) !in After(a, t);
      assert After(a + {last}, t) == {last};
    } else {
      assert MinTime(After(a, t)) in a;
      ExtendTimes(After(a, t), last);
    }
  }

  lemma {:induction false} LinkSnoc(a: set<int>, gap: int, interval: real, t: int)
    requires a != {} && gap > 0 && Seconds(gap) <= interval && Linked(a, interval)
    requires t in a + {MaxTime(a) + gap} && After(a + {MaxTime(a) + gap}, t) != {}
    ensures Seconds(MinTime(After(a + {MaxTime(a) + gap}, t)) - t) <= interval
  {
    var later := Pick(After(a + {MaxTime(a) + gap}, t));
    assert t < later <= MaxTime(a) + gap;
    NextTime(a, gap, t);
  }

  lemma {:induction false} LinkedSnoc(a: set<int>, gap: int, interval: real)
    requires a != {} && gap > 0 && Seconds(gap) <= interval && Linked(a, interval)
    ensures Linked(a + {MaxTime(a) + gap}, interval)
  {
    var b := a + {MaxTime(a) + gap};
    forall t | t in b && After(b, t) != {} ensures Seconds(MinTime(After(b, t)) - t) <= interval {
      LinkSnoc(a, gap, interval, t);
    }
  }

  /** What a run of regular beats holds. */
  lemma {:induction false} RegularRun(created: int, gap: int, interval: real, n: nat)
    requires n > 0 && gap > 0 && Seconds(gap) <= interval
    ensures var events := RegularBeats(created, gap, n);
            var s := Run(created, events, n);
            && s.beats == Beats(events, n) && s.earliest == created
            && |s.beats| == n && s.beats != {} && Linked(s.beats, interval)
            && MinTime(s.beats) == created && MaxTime(s.beats) == BeatTime(created, gap, n - 1)
  {
    var init := RegularBeats(created, gap, n - 1);
    RunPrefix(created, init, Beat(BeatTime(created, gap, n - 1)), n - 1);
    if n == 1 {
      assert Run(created, RegularBeats(created, gap, 1), 1).beats == {created};
      assert After({created}, created) == {};
    } else {
      RegularRun(created, gap, interval, n - 1);
      var a := Run(created, init, n - 1).beats;
      LinkedSnoc(a, gap, interval);
      ExtendTimes(a, MaxTime(a) + gap);
    }
  }

  /** 65537 held beats count as one. */
  lemma {:induction false} CountedAsOne(s: State, created: int, now: int, interval: real)
    requires interval > 0.0 && |s.beats| == COUNT_LIMIT + 1
    requires created <= now && Earliest(s) == created && Latest(s) == now
    ensures SummaryOf(s, now, interval).droprate > 0.0 <==> Holds(now - created, 2, interval)
  {
    assert DurationOf(s, now, interval) == Sub(now, created);
    RateIsPositiveIff(s, now, interval);
  }

  /** The wrap is reached: 65537 regular beats are counted as one, and a drop is reported if and only
      if the time they cover, cut off at two hours, holds at least two intervals. With a beat every
      0.05 seconds at an interval of 1 second, that is after 55 minutes, when no cleanup has run. */
  lemma {:induction false} SteadyRunAlarms(created: int, gap: int, interval: real)
    requires 0 < gap && Seconds(gap) <= interval
    ensures var events, now := RegularBeats(created, gap, COUNT_LIMIT + 1), BeatTime(created, gap, COUNT_LIMIT);
            var s := Run(created, events, COUNT_LIMIT + 1);
            && Steady(Beats(events, COUNT_LIMIT + 1), created, now, interval)
            && |s.beats| == COUNT_LIMIT + 1 == 65537
            && (SummaryOf(s, now, interval).droprate > 0.0 <==> Holds(65536 * gap, 2, interval))
  {
    var now := BeatTime(created, gap, COUNT_LIMIT);
    var s := Run(created, RegularBeats(created, gap, COUNT_LIMIT + 1), COUNT_LIMIT + 1);
    RegularRun(created, gap, interval, COUNT_LIMIT + 1);
    BeatTimeIsProduct(created, gap, COUNT_LIMIT);
    assert Earliest(s) == created && Latest(s) == now;
    CountedAsOne(s, created, now, interval);
  }

  // ---------------------------------------------------------------- the window

  /** Beats at least an interval apart. */
  ghost predicate Apart(a: set<int>, interval: real) {
    forall t, u | t in a && u in a && t < u :: Seconds(u - t) >= interval
  }

  lemma {:induction false} Widen(first: int, mid: int, last: int, n: nat, interval: real)
    requires Seconds(mid - first) >= Intervals(n, interval) && Seconds(last - mid) >= interval
    ensures Seconds(last - first) >= Intervals(n + 1, interval)
  {
  }

  lemma {:induction false} SplitLast(a: set<int>)
    requires a != {} && a - {MaxTime(a)} != {}
    ensures MinTime(a - {MaxTime(a)}) == MinTime(a) && MaxTime(a - {MaxTime(a)}) < MaxTime(a)
    ensures |a - {MaxTime(a)}| == |a| - 1
  {
    var init := a - {MaxTime(a)};
    assert a == init + {MaxTime(a)};
    assert MinTime(init) in a;
  }

  /** Pigeonhole: beats an interval apart span at least one interval for every beat but one. */
  lemma {:induction false} Span(a: set<int>, interval: real)
    requires a != {} && interval > 0.0 && Apart(a, interval)
    ensures Seconds(MaxTime(a) - MinTime(a)) >= Intervals(|a| - 1, interval)
    decreases |a|
  {
    var last := MaxTime(a);
    var init := a - {last};
    if init == {} {
      assert a == {last};
    } else {
      Span(init, interval);
      SplitLast(a);
      Widen(MinTime(a), MaxTime(init), last, |init| - 1, interval);
    }
  }

  lemma {:induction false} FullCycleAtLeast(first: int, last: int, n: nat, interval: real)
    requires interval > 0.0 && last - first <= EXPIRED_INTERVAL
    requires Seconds(last - first) >= Intervals(n, interval)
    ensures FullCycle(interval) >= n
  {
    IntervalsIsProduct(n, interval);
    QuotientAbove(Seconds(EXPIRED_INTERVAL), n as real, interval);
  }

  /** After a cleanup, beats an interval apart number at most one more than two hours hold. */
  lemma {:induction false} WindowBound(s: State, now: int, interval: real)
    requires interval > 0.0 && Apart(s.beats, interval) && forall t | t in s.beats :: t <= now
    ensures |Sweep(s, now).beats| <= FullCycle(interval) + 1
    ensures Sweep(s, now).beats != {} ==> Holds(7_200_000_000_000, |Sweep(s, now).beats| - 1, interval)
  {
    var a := Sweep(s, now).beats;
    if a != {} {
      Span(a, interval);
      FullCycleAtLeast(MinTime(a), MaxTime(a), |a| - 1, interval);
      ExpectedAtLeastIff(EXPIRED_INTERVAL, |a| - 1, interval);
    } else {
      FullCycleAtLeast(0, 0, 0, interval);
    }
  }

  lemma {:induction false} FullCycleAtMost(interval: real)
    requires interval >= 1.0
    ensures FullCycle(interval) <= 7200
  {
    QuotientBelow(Seconds(EXPIRED_INTERVAL), 7201.0, interval);
  }

  /** So from one beat a second down, the 16-bit count of a summary after a cleanup is exact. */
  lemma {:induction false} CountIsExact(s: State, now: int, later: int, interval: real)
    requires interval >= 1.0 && Apart(s.beats, interval) && forall t | t in s.beats :: t <= now
    ensures SummaryOf(Sweep(s, now), later, interval).receivedCount == |Sweep(s, now).beats|
  {
    WindowBound(s, now, interval);
    FullCycleAtMost(interval);
    CountFits(Sweep(s, now));
  }

  /** All beats received from event `k` on are at or after `w`. */
  ghost predicate BeatsFrom(events: seq<Event>, k: nat, n: nat, w: int)
    requires n <= |events|
  {
    forall j | k <= j < n && events[j].Beat? :: events[j].t >= w
  }

  /** Nothing older than `w` is held: either no beat is older, or a cleanup has removed what was more
      than two hours old when it ran, and no older beat has come since. */
  ghost predicate HeldFrom(events: seq<Event>, n: nat, w: int)
    requires n <= |events|
  {
    || BeatsFrom(events, 0, n, w)
    || exists k :: 0 <= k < n && CleansUpTo(events[k], w) && BeatsFrom(events, k, n, w)
  }

  predicate CleansUpTo(e: Event, w: int) {
    e.Cleanup? && e.now - EXPIRED_INTERVAL >= w
  }

  lemma {:induction false} HeldSince(created: int, events: seq<Event>, k: nat, n: nat, w: int)
    requires k <= n <= |events| && BeatsFrom(events, k, n, w)
    requires k == 0 || (k < n && CleansUpTo(events[k], w))
    ensures forall t | t in Run(created, events, n).beats :: t >= w
    decreases n
  {
    if n > k && n > 0 && !(k > 0 && n == k + 1) {
      HeldSince(created, events, k, n - 1, w);
    }
  }

  lemma {:induction false} HeldBound(created: int, events: seq<Event>, n: nat, w: int, now: int, gap: real)
    requires n <= |events| && gap > 0.0 && HeldFrom(events, n, w)
    requires Apart(Run(created, events, n).beats, gap)
    requires forall t | t in Run(created, events, n).beats :: t <= now
    requires Seconds(now - w) < 65535.0 * gap
    ensures |Run(created, events, n).beats| < COUNT_LIMIT
  {
    var a := Run(created, events, n).beats;
    if a != {} {
      if BeatsFrom(events, 0, n, w) {
        HeldSince(created, events, 0, n, w);
      } else {
        var k :| 0 <= k < n && CleansUpTo(events[k], w) && BeatsFrom(events, k, n, w);
        HeldSince(created, events, k, n, w);
      }
      Span(a, gap);
      SpanFits(MinTime(a), MaxTime(a), w, now, |a| - 1, gap);
    }
  }

  lemma {:induction false} SpanFits(first: int, last: int, w: int, now: int, m: nat, gap: real)
    requires gap > 0.0 && w <= first && last <= now
    requires Seconds(last - first) >= Intervals(m, gap)
    requires Seconds(now - w) < 65535.0 * gap
    ensures m + 1 < COUNT_LIMIT
  {
    IntervalsIsProduct(COUNT_LIMIT - 1, gap);
    if m >= COUNT_LIMIT - 1 {
      IntervalsMonotone(COUNT_LIMIT - 1, m, gap);
    }
  }

  /** Main result: regular beats at least `gap` apart never give a false alarm while the time since
      `w`, the start of what can still be held, is below 65535 gaps. Two hours and the time since the
      last cleanup is one such time; without a cleanup it is the time since the first beat. */
  lemma {:induction false} SpacedBeatsNeverAlarm(created: int, events: seq<Event>, n: nat, now: int,
                                                 interval: real, gap: real, w: int)
    requires n <= |events| && interval > 0.0 && created <= now && CleanedBy(events, n, now)
    requires Steady(Beats(events, n), created, now, interval)
    requires gap > 0.0 && Apart(Beats(events, n), gap) && forall t | t in Beats(events, n) :: t <= now
    requires HeldFrom(events, n, w) && Seconds(now - w) < 65535.0 * gap
    ensures SummaryOf(Run(created, events, n), now, interval).droprate == 0.0
  {
    HeldBeats(created, events, n, now);
    HeldBound(created, events, n, w, now, gap);
    NoFalseAlarm(created, events, n, now, interval);
  }

  // ---------------------------------------------------------------- bounds on every summary

  /** The earliest time never increases along a run. */
  lemma {:induction false} EarliestNeverIncreases(created: int, events: seq<Event>, m: nat, n: nat)
    requires m <= n <= |events|
    ensures Run(created, events, n).earliest <= Run(created, events, m).earliest
  {
    if m < n {
      EarliestNeverIncreases(created, events, m, n - 1);
    }
  }

  /** Every summary: the remembered time is at or before every held beat, the duration is at least
      the span between any two of them and never negative, the drop rate lies in [0, 1). */
  lemma {:induction false} SummaryBounds(s: State, now: int, interval: real)
    requires interval > 0.0
    ensures forall t | t in s.beats :: Summarised(s).earliest <= t
    ensures forall t, u | t in s.beats && u in s.beats :: DurationOf(s, now, interval) >= Sub(u, t)
    ensures DurationOf(s, now, interval) >= 0
    ensures 0.0 <= SummaryOf(s, now, interval).droprate < 1.0
  {
    assert Closest(Latest(s), now, interval) >= Latest(s) by {
      assert Seconds(Sub(now, Latest(s))) > 0.0 ==> now >= Latest(s);
    }
    assert forall t | t in s.beats :: Earliest(s) <= t <= Latest(s);
  }
}
