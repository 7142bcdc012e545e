/** The transaction recorder: a bitmap of two hours' minutes, counted from the minute of the first
    receipt, and the drop rate over the minutes elapsed. */
module Transactions {
  import opened Arith
  import opened Clock

  /** `totalReceivedCount`: the minutes in two hours. */
  const TOTAL: nat := 120
  const INDEX_NOT_FOUND: int := -1

  datatype TransactionSummary = TransactionSummary(droprate: real, duration: int, received: bool, receivedCount: nat)

  datatype State = State(slots: seq<bool>, base: int, received: bool)

  // ---------------------------------------------------------------- minutes

  /** The whole minutes before `t`. */
  function Minute(t: int): int {
    t / MINUTE
  }

  /** `roundTimeToMinute`: seconds and below set to zero. */
  function Round(t: int): (r: int)
    ensures r == Minute(t) * MINUTE && r <= t < r + MINUTE
  {
    t - t % MINUTE
  }

  /** `m` is the beginning of the minute in which `t` lies. */
  predicate IsMinuteOf(m: int, t: int) {
    m % 60_000_000_000 == 0 && m <= t < m + 60_000_000_000
  }

  /** The slot of a receipt at `t` when the bitmap starts at `base`. */
  function Index(t: int, base: int): int {
    TruncDiv(Sub(Round(t), base), MINUTE)
  }

  /** Counted from a whole minute, a receipt falls into the slot of its minute; saturation of very
      long durations never brings one back into the bitmap. */
  lemma {:induction false} IndexIsMinute(t: int, first: int)
    ensures Minute(t) * 60_000_000_000 <= t < (Minute(t) + 1) * 60_000_000_000
    ensures 0 <= Index(t, Round(first)) < TOTAL <==> 0 <= Minute(t) - Minute(first) < 120
    ensures 0 <= Minute(t) - Minute(first) < TOTAL ==> Index(t, Round(first)) == Minute(t) - Minute(first)
  {
  }

  // ---------------------------------------------------------------- the state

  function Blank(): State {
    State(seq(TOTAL, _ => false), ZERO_TIME, false)
  }

  /** `Add`. */
  function AddReceipt(s: State, t: int): State
    requires |s.slots| == TOTAL
  {
    var s1 := if s.received then s else s.(received := true, base := Round(t));
    var i := Index(t, s1.base);
    if 0 <= i < TOTAL then s1.(slots := s1.slots[i := true]) else s1
  }

  /** `findReceivedItemFromIndex`: the first set slot at or after `from`. */
  function NextReceived(slots: seq<bool>, from: nat): (i: int)
    ensures i == INDEX_NOT_FOUND ==> forall k | from <= k < |slots| :: !slots[k]
    ensures i != INDEX_NOT_FOUND ==> from <= i < |slots| && slots[i] && forall k | from <= k < i :: !slots[k]
    decreases |slots| - from
  {
    if from >= |slots| then INDEX_NOT_FOUND
    else if slots[from] then from
    else NextReceived(slots, from + 1)
  }

  /** A cleanup does nothing while the bitmap is younger than two hours; then it clears slot 0, and
      moves the base past the next receipt, or to the zero time when there is none. */
  function Cleanup(s: State, now: int): State
    requires |s.slots| == TOTAL
  {
    if s.base > now - EXPIRED_INTERVAL then s
    else
      var next := NextReceived(s.slots, 1);
      State(s.slots[0 := false],
            if next == INDEX_NOT_FOUND then ZERO_TIME else s.base + (next + 1) * MINUTE,
            s.received)
  }

  /** What a cleanup two hours or more after the base does: slot 0 is cleared and no other slot
      changes, the base moves to the minute after the next receipt, or to the zero time when there is
      none, and that something was received is not forgotten. */
  ghost predicate CleanedUp(s: State, s': State)
    requires |s.slots| == |s'.slots| == 120
  {
    && s'.received == s.received
    && !s'.slots[0] && (forall m | 1 <= m < 120 :: s'.slots[m] == s.slots[m])
    && ((forall m | 1 <= m < 120 :: !s.slots[m]) ==> s'.base == 0)
    && forall k | 1 <= k < 120 && s.slots[k] && forall m | 1 <= m < k :: !s.slots[m] ::
         s'.base == s.base + (k + 1) * 60_000_000_000
  }

  lemma {:induction false} CleanupCleansUp(s: State, now: int)
    requires |s.slots| == TOTAL
    ensures if s.base > now - 7_200_000_000_000 then Cleanup(s, now) == s else CleanedUp(s, Cleanup(s, now))
  {
    var next := NextReceived(s.slots, 1);
    forall k | 1 <= k < 120 && s.slots[k] && forall m | 1 <= m < k :: !s.slots[m]
      ensures next == k
    {
    }
  }

  /** The minutes whose slot is set. */
  ghost function Marked(slots: seq<bool>): set<nat> {
    set m: nat | m < |slots| && slots[m]
  }

  /** `expectedCount`. */
  function ExpectedCount(base: int, now: int): (e: int)
    ensures e != 0 && e <= TOTAL
  {
    var elapsed := TruncDiv(Sub(now, base), MINUTE);
    if elapsed == 0 then 1 else if TOTAL < elapsed then TOTAL else elapsed
  }

  /** With `count` set slots, `rate` is the missing share of the whole minutes in `duration`, of which
      at most 120 are expected. */
  ghost predicate IsMissingShare(rate: real, count: nat, duration: int) {
    && (forall e: nat | e <= 120 && count < e && e * 60_000_000_000 <= duration
                        && (e < 120 ==> duration < (e + 1) * 60_000_000_000) ::
         rate * e as real == (e - count) as real)
    && (duration < (count + 1) * 60_000_000_000 || count >= 120 ==> rate == 0.0)
  }

  /** The share of `expected` that is missing, when some is. */
  function Missing(expected: int, count: nat): (r: real)
    ensures 0.0 <= r <= 1.0
    ensures r == 0.0 <==> expected <= count
    ensures r == 1.0 <==> count == 0 < expected
    ensures expected > count ==> r * expected as real == (expected - count) as real
  {
    if expected > count then
      Fraction(expected - count, expected);
      (expected - count) as real / expected as real
    else 0.0
  }

  ghost function SummaryOf(s: State, now: int): TransactionSummary {
    if Marked(s.slots) == {} then TransactionSummary(if s.received then 1.0 else 0.0, 0, s.received, 0)
    else
      TransactionSummary(Missing(ExpectedCount(s.base, now), |Marked(s.slots)|), Sub(now, s.base),
                         s.received, |Marked(s.slots)|)
  }

  lemma {:induction false} SummaryMeans(s: State, now: int)
    requires |s.slots| == TOTAL
    ensures var summary := SummaryOf(s, now);
            Marked(s.slots) != {} ==>
              summary.receivedCount > 0 && IsMissingShare(summary.droprate, summary.receivedCount, summary.duration)
  {
    if Marked(s.slots) != {} {
      ExpectedMeans(s.base, now);
      MissingMeans(ExpectedCount(s.base, now), |Marked(s.slots)|, Sub(now, s.base));
    }
  }

  /** `e` is the number of whole minutes in `d`, at least 1 (unless `d` is negative) and at most 120. */
  predicate IsExpected(e: int, d: int) {
    && e <= 120 && (e < 120 ==> d < (e + 1) * 60_000_000_000)
    && (e > 1 ==> e * 60_000_000_000 <= d) && (d < 60_000_000_000 ==> e <= 1)
  }

  lemma {:induction false} MissingMeans(expected: int, count: nat, d: int)
    requires count > 0 && IsExpected(expected, d)
    ensures IsMissingShare(Missing(expected, count), count, d)
  {
    forall e: nat | e <= 120 && count < e && e * 60_000_000_000 <= d && (e < 120 ==> d < (e + 1) * 60_000_000_000)
      ensures e == expected
    {
    }
  }

  lemma {:induction false} ExpectedMeans(base: int, now: int)
    ensures IsExpected(ExpectedCount(base, now), Sub(now, base))
  {
  }

  // ---------------------------------------------------------------- the object

  lemma {:induction false} MarkedSnoc(slots: seq<bool>, i: nat)
    requires i < |slots|
    ensures Marked(slots[..i + 1]) == Marked(slots[..i]) + (if slots[i] then {i} else {})
  {
  }

  class Recorder {
    const data: array<bool>
    var firstItemReceivedTime: int
    var received: bool

    ghost predicate Valid()
      reads this
    {
      data.Length == TOTAL
    }

    ghost function Value(): State
      reads this, data
    {
      State(data[..], firstItemReceivedTime, received)
    }

    constructor ()
      ensures Valid() && Value() == Blank() && fresh(data)
    {
      data := new bool[TOTAL](_ => false);
      firstItemReceivedTime, received := ZERO_TIME, false;
      new;
      assert data[..] == Blank().slots;
    }

    method Add(receivedTime: int)
      requires Valid()
      modifies this, data
      ensures Valid() && Value() == AddReceipt(old(Value()), receivedTime)
      ensures received
      ensures old(received) ==> firstItemReceivedTime == old(firstItemReceivedTime)
      ensures !old(received) ==> IsMinuteOf(firstItemReceivedTime, receivedTime)
    {
      if !received {
        received := true;
        firstItemReceivedTime := Round(receivedTime);
      }
      var timeDiff := Sub(Round(receivedTime), firstItemReceivedTime);
      var index := TruncDiv(timeDiff, MINUTE);
      if 0 > index || TOTAL <= index {
        return;
      }
      data[index] := true;
    }

    /** `findReceivedItemFromIndex`. */
    method FindReceivedItemFromIndex(start: nat) returns (index: int)
      requires Valid() && start <= TOTAL
      ensures index == NextReceived(data[..], start)
    {
      for i := start to data.Length
        invariant NextReceived(data[..], start) == NextReceived(data[..], i)
      {
        if data[i] {
          return i;
        }
      }
      return INDEX_NOT_FOUND;
    }

    /** `cleanupExpiredTransaction`: a scan and a partial copy into a fresh bitmap. */
    method CleanupExpired(now: int)
      requires Valid()
      modifies this, data
      ensures Valid() && Value() == Cleanup(old(Value()), now)
      ensures received == old(received)
      ensures if old(firstItemReceivedTime) > now - 7_200_000_000_000 then Value() == old(Value())
              else CleanedUp(old(Value()), Value())
    {
      if firstItemReceivedTime > now - EXPIRED_INTERVAL {
        return;
      }
      var firstItem := FindReceivedItemFromIndex(1);
      var tmpArray := new bool[TOTAL](_ => false);
      if firstItem == INDEX_NOT_FOUND {
        firstItemReceivedTime := ZERO_TIME;
      } else {
        forall k | firstItem <= k < TOTAL {
          tmpArray[k] := data[k];
        }
        firstItemReceivedTime := firstItemReceivedTime + (firstItem + 1) * MINUTE;
      }
      forall k | 0 <= k < TOTAL {
        data[k] := tmpArray[k];
      }
      assert data[..] == old(data[..])[0 := false];
      CleanupCleansUp(old(Value()), now);
    }

    /** `receivedCountFromPrevTwoHour`. */
    method ReceivedCount() returns (count: nat)
      requires Valid()
      ensures count == |Marked(data[..])|
    {
      count := 0;
      for i := 0 to data.Length
        invariant count == |Marked(data[..i])|
      {
        MarkedSnoc(data[..], i);
        assert data[..][..i] == data[..i] && data[..][..i + 1] == data[..i + 1];
        if data[i] {
          count := count + 1;
        }
      }
      assert data[..data.Length] == data[..];
    }

    /** `Summary`. */
    method Summary(now: int) returns (summary: TransactionSummary)
      requires Valid()
      ensures summary == SummaryOf(Value(), now)
      ensures summary.received == received && summary.receivedCount == |Marked(data[..])|
      ensures summary.receivedCount == 0 ==> summary.duration == 0 && summary.droprate == if received then 1.0 else 0.0
      ensures summary.receivedCount > 0 ==>
                && summary.duration == Sub(now, firstItemReceivedTime)
                && IsMissingShare(summary.droprate, summary.receivedCount, summary.duration)
    {
      SummaryMeans(Value(), now);
      var first := FindReceivedItemFromIndex(0);
      if first == INDEX_NOT_FOUND {
        assert Marked(data[..]) == {};
        return TransactionSummary(if received then 1.0 else 0.0, 0, received, 0);
      }
      assert first in Marked(data[..]);
      var expected := ExpectedCount(firstItemReceivedTime, now);
      var count := ReceivedCount();
      var dropRate := 0.0;
      if expected > count {
        Fraction(expected - count, expected);
        dropRate := (expected - count) as real / expected as real;
      }
      summary := TransactionSummary(dropRate, Sub(now, firstItemReceivedTime), received, count);
    }
  }

  // ---------------------------------------------------------------- runs without a cleanup

  /** The state after the first `n` receipts. */
  function Adds(ts: seq<int>, n: nat): (s: State)
    requires n <= |ts|
    ensures |s.slots| == TOTAL
  {
    if n == 0 then Blank() else AddReceipt(Adds(ts, n - 1), ts[n - 1])
  }

  ghost predicate ReceiptInMinute(ts: seq<int>, n: nat, m: int) {
    exists k :: 0 <= k < n <= |ts| && Minute(ts[k]) == m
  }

  /** Main result: the bitmap is the set of minutes with a receipt, counted from the first. */
  lemma {:induction false} BitmapIsMinutes(ts: seq<int>, n: nat)
    requires 0 < n <= |ts|
    ensures Adds(ts, n).received && Adds(ts, n).base == Round(ts[0])
    ensures forall m | 0 <= m < 120 :: Adds(ts, n).slots[m] <==> ReceiptInMinute(ts, n, Minute(ts[0]) + m)
  {
    IndexIsMinute(ts[n - 1], ts[0]);
    if n > 1 {
      BitmapIsMinutes(ts, n - 1);
    }
    forall m | 0 <= m < TOTAL
      ensures Adds(ts, n).slots[m] <==> ReceiptInMinute(ts, n, Minute(ts[0]) + m)
    {
      assert ReceiptInMinute(ts, n, Minute(ts[0]) + m)
        <==> ReceiptInMinute(ts, n - 1, Minute(ts[0]) + m) || Minute(ts[n - 1]) == Minute(ts[0]) + m;
    }
  }

  /** Receipts in the same minutes give the same state, in any order and however often repeated,
      as long as the first falls into the same minute. */
  lemma {:induction false} OrderIsIrrelevant(ts: seq<int>, us: seq<int>)
    requires ts != [] && us != [] && Minute(ts[0]) == Minute(us[0])
    requires forall m :: ReceiptInMinute(ts, |ts|, m) <==> ReceiptInMinute(us, |us|, m)
    ensures Adds(ts, |ts|) == Adds(us, |us|)
  {
    BitmapIsMinutes(ts, |ts|);
    BitmapIsMinutes(us, |us|);
    assert Adds(ts, |ts|).slots == Adds(us, |us|).slots;
  }

  /** The whole minutes from the first receipt's minute to `now`, at least 1 and at most 120. */
  function ElapsedMinutes(first: int, now: int): (e: int)
    ensures 1 <= e <= 120
    ensures e < 120 ==> now - Round(first) < (e + 1) * 60_000_000_000
    ensures e > 1 ==> e * 60_000_000_000 <= now - Round(first)
  {
    var elapsed := (now - Round(first)) / MINUTE;
    if elapsed < 1 then 1 else if elapsed > TOTAL then TOTAL else elapsed
  }

  lemma {:induction false} MarkedInterval(slots: seq<bool>, e: nat)
    requires e <= |slots| && forall m | 0 <= m < e :: slots[m]
    ensures |Marked(slots)| >= e
  {
    if e > 0 {
      MarkedInterval(slots[..e - 1], e - 1);
      var init := Marked(slots[..e - 1]);
      assert |init + {e - 1}| == |init| + 1;
      assert init + {e - 1} <= Marked(slots);
      assert (init + {e - 1}) + (Marked(slots) - (init + {e - 1})) == Marked(slots);
    }
  }

  /** A receipt lies `m` whole minutes after the first one's minute. */
  ghost predicate ReceiptAfter(ts: seq<int>, n: nat, m: int)
    requires ts != []
  {
    ReceiptInMinute(ts, n, Minute(ts[0]) + m)
  }

  /** Main result: before any cleanup the drop rate is the share of the elapsed minutes without a
      receipt, out of the first 120. */
  lemma {:induction false} DropRateIsExact(ts: seq<int>, n: nat, now: int)
    requires 0 < n <= |ts|
    ensures var count := |Marked(Adds(ts, n).slots)|;
            && count > 0
            && SummaryOf(Adds(ts, n), now).receivedCount == count
            && SummaryOf(Adds(ts, n), now).duration == Sub(now, Round(ts[0]))
            && SummaryOf(Adds(ts, n), now).droprate == Missing(ElapsedMinutes(ts[0], now), count) < 1.0
  {
    BitmapIsMinutes(ts, n);
    assert ReceiptInMinute(ts, n, Minute(ts[0]) + 0);
    assert 0 in Marked(Adds(ts, n).slots);
    ElapsedIsExpected(ts[0], now);
  }

  /** No drop is reported when every elapsed minute had a receipt. */
  lemma {:induction false} NoDropWhenAllReceived(ts: seq<int>, n: nat, now: int)
    requires 0 < n <= |ts|
    requires forall m | 0 <= m < ElapsedMinutes(ts[0], now) :: ReceiptAfter(ts, n, m)
    ensures SummaryOf(Adds(ts, n), now).droprate == 0.0
  {
    var e, slots := ElapsedMinutes(ts[0], now), Adds(ts, n).slots;
    BitmapIsMinutes(ts, n);
    assert forall m | 0 <= m < e :: ReceiptAfter(ts, n, m) ==> slots[m];
    MarkedInterval(slots, e);
    DropRateIsExact(ts, n, now);
  }

  /** Expected minutes and elapsed minutes agree, except that a clock set back before the first
      receipt makes the expected count negative. */
  lemma {:induction false} ElapsedIsExpected(first: int, now: int)
    ensures ExpectedCount(Round(first), now) == ElapsedMinutes(first, now)
            || (ExpectedCount(Round(first), now) < 0 && ElapsedMinutes(first, now) == 1)
  {
  }

  // ---------------------------------------------------------------- cleanups

  /** A cleanup that is due lowers the count by one if slot 0 was set, and leaves it otherwise. */
  lemma {:induction false} CleanupCounts(s: State, now: int)
    requires |s.slots| == TOTAL && s.base <= now - EXPIRED_INTERVAL
    ensures |Marked(Cleanup(s, now).slots)| == |Marked(s.slots)| - (if s.slots[0] then 1 else 0)
  {
    assert Marked(Cleanup(s, now).slots) == Marked(s.slots) - {0};
    assert 0 in Marked(s.slots) <==> s.slots[0];
  }

  /** Some receipt inside the two hours of the bitmap lies in minute `m`. */
  ghost predicate AcceptedInMinute(ts: seq<int>, n: nat, m: int)
    requires ts != []
  {
    0 <= m - Minute(ts[0]) < TOTAL && ReceiptInMinute(ts, n, m)
  }

  /** Each bit says whether a receipt was accepted in the minute it stands for. */
  ghost predicate MeansMinutes(s: State, ts: seq<int>, n: nat)
    requires ts != [] && |s.slots| == TOTAL
  {
    forall m | 0 <= m < TOTAL :: s.slots[m] <==> AcceptedInMinute(ts, n, Minute(s.base) + m)
  }

  lemma {:induction false} LastSet(slots: seq<bool>, i: nat) returns (last: nat)
    requires i < |slots| && slots[i]
    ensures i <= last < |slots| && slots[last] && forall k | last < k < |slots| :: !slots[k]
    decreases |slots| - i
  {
    if k :| i < k < |slots| && slots[k] {
      last := LastSet(slots, k);
    } else {
      last := i;
    }
  }

  /** No receipt was accepted so many minutes after the last set slot. */
  lemma {:induction false} BeyondLastSet(ts: seq<int>, n: nat, last: nat, m: nat)
    requires 0 < n <= |ts| && last < m
    requires forall k | last < k < TOTAL :: !Adds(ts, n).slots[k]
    ensures !AcceptedInMinute(ts, n, Minute(ts[0]) + m)
  {
    BitmapIsMinutes(ts, n);
    if m < TOTAL {
      assert !Adds(ts, n).slots[m];
    }
  }

  lemma {:induction false} MovedBase(s: State, first: int, now: int)
    requires |s.slots| == TOTAL && s.base == Round(first) && s.base <= now - EXPIRED_INTERVAL
    requires NextReceived(s.slots, 1) != INDEX_NOT_FOUND
    ensures Minute(Cleanup(s, now).base) == Minute(first) + NextReceived(s.slots, 1) + 1
    ensures Cleanup(s, now).slots == s.slots[0 := false]
  {
  }

  /** A due cleanup that finds a next receipt moves the base and not the bits: the last set bit then
      stands for a minute without an accepted receipt. */
  lemma {:induction false} DueCleanupMisplaces(ts: seq<int>, n: nat, now: int)
    requires 0 < n <= |ts| && Adds(ts, n).base <= now - EXPIRED_INTERVAL
    requires NextReceived(Adds(ts, n).slots, 1) != INDEX_NOT_FOUND
    ensures !MeansMinutes(Cleanup(Adds(ts, n), now), ts, n)
  {
    BitmapIsMinutes(ts, n);
    var s := Adds(ts, n);
    var c, next := Cleanup(s, now), NextReceived(s.slots, 1);
    var last := LastSet(s.slots, next);
    MovedBase(s, ts[0], now);
    BeyondLastSet(ts, n, last, next + 1 + last);
    assert Minute(c.base) + last == Minute(ts[0]) + (next + 1 + last);
    assert c.slots[last] && !AcceptedInMinute(ts, n, Minute(c.base) + last);
  }

  /** With nothing set beyond slot 0, receipts were accepted in the first minute only. */
  lemma {:induction false} OnlyFirstMinute(ts: seq<int>, n: nat, m: int)
    requires 0 < n <= |ts| && NextReceived(Adds(ts, n).slots, 1) == INDEX_NOT_FOUND
    ensures AcceptedInMinute(ts, n, m) <==> m == Minute(ts[0])
  {
    BitmapIsMinutes(ts, n);
    var k := m - Minute(ts[0]);
    assert 0 <= k < TOTAL ==> (Adds(ts, n).slots[k] <==> ReceiptInMinute(ts, n, Minute(ts[0]) + k));
    assert k == 0 ==> ReceiptInMinute(ts, n, m);
  }

  /** A due cleanup that finds no next receipt leaves an empty bitmap at the zero time. */
  lemma {:induction false} EmptyCleanupMeans(ts: seq<int>, n: nat, now: int)
    requires 0 < n <= |ts| && Adds(ts, n).base <= now - EXPIRED_INTERVAL
    requires NextReceived(Adds(ts, n).slots, 1) == INDEX_NOT_FOUND
    ensures MeansMinutes(Cleanup(Adds(ts, n), now), ts, n) <==> !(0 <= Minute(ts[0]) < TOTAL)
  {
    var c, first := Cleanup(Adds(ts, n), now), Minute(ts[0]);
    assert Minute(c.base) == 0;
    forall m | 0 <= m < TOTAL ensures !c.slots[m] && (AcceptedInMinute(ts, n, Minute(c.base) + m) <==> m == first) {
      OnlyFirstMinute(ts, n, m);
    }
    if 0 <= first < TOTAL {
      assert !c.slots[first] && AcceptedInMinute(ts, n, Minute(c.base) + first);
    }
  }

  lemma {:induction false} RoundedMinute(t: int)
    ensures Minute(Round(t)) == Minute(t)
  {
  }

  lemma {:induction false} AddsMeanMinutes(ts: seq<int>, n: nat)
    requires 0 < n <= |ts|
    ensures MeansMinutes(Adds(ts, n), ts, n)
  {
    BitmapIsMinutes(ts, n);
    RoundedMinute(ts[0]);
    var s := Adds(ts, n);
    forall m | 0 <= m < TOTAL ensures s.slots[m] <==> AcceptedInMinute(ts, n, Minute(s.base) + m) {
      assert Minute(s.base) + m == Minute(ts[0]) + m;
    }
  }

  /** Main result: after any receipts, a cleanup leaves a bitmap that still means its minutes if and
      only if it was not due, or it found no receipt beyond the first minute. (The last condition
      concerns receipts in the two hours after Go's zero time only.) */
  lemma {:induction false} CleanupKeepsMeaningIff(ts: seq<int>, n: nat, now: int)
    requires 0 < n <= |ts|
    ensures MeansMinutes(Cleanup(Adds(ts, n), now), ts, n)
            <==> || Adds(ts, n).base > now - EXPIRED_INTERVAL
                 || (NextReceived(Adds(ts, n).slots, 1) == INDEX_NOT_FOUND && !(0 <= Minute(ts[0]) < TOTAL))
  {
    if Adds(ts, n).base > now - EXPIRED_INTERVAL {
      AddsMeanMinutes(ts, n);
    } else if NextReceived(Adds(ts, n).slots, 1) == INDEX_NOT_FOUND {
      EmptyCleanupMeans(ts, n, now);
    } else {
      DueCleanupMisplaces(ts, n, now);
    }
  }

  /** The smallest instance: receipts in two consecutive minutes and none later. */
  lemma {:induction false} CleanupMisplacesReceipts(t: int, now: int)
    requires Round(t) + EXPIRED_INTERVAL <= now
    ensures !MeansMinutes(Cleanup(Adds([t, t + MINUTE], 2), now), [t, t + MINUTE], 2)
  {
    var ts := [t, t + MINUTE];
    BitmapIsMinutes(ts, 2);
    assert Minute(ts[1]) == Minute(ts[0]) + 1;
    assert ReceiptInMinute(ts, 2, Minute(ts[0]) + 1);
    assert Adds(ts, 2).slots[1];
    CleanupKeepsMeaningIff(ts, 2, now);
  }

  /** Received once, but with no base and no bit left. */
  ghost predicate Dead(s: State) {
    |s.slots| == TOTAL && s.received && s.base == ZERO_TIME && Marked(s.slots) == {}
  }

  /** When a cleanup kills the recorder: the bitmap is two hours old and holds nothing beyond slot 0. */
  lemma {:induction false} CleanupKillsIff(s: State, now: int)
    requires |s.slots| == TOTAL && s.received && s.base > ZERO_TIME
    ensures Dead(Cleanup(s, now))
            <==> s.base <= now - EXPIRED_INTERVAL && forall m | 1 <= m < TOTAL :: !s.slots[m]
  {
    var c := Cleanup(s, now);
    if s.base <= now - EXPIRED_INTERVAL && NextReceived(s.slots, 1) == INDEX_NOT_FOUND {
      assert Marked(c.slots) == {};
    }
  }

  datatype Event = Receipt(t: int) | Tick(now: int)

  function RunFrom(s: State, events: seq<Event>, n: nat): (r: State)
    requires n <= |events| && |s.slots| == TOTAL
    ensures |r.slots| == TOTAL
  {
    if n == 0 then s
    else
      match events[n - 1]
      case Receipt(t) => AddReceipt(RunFrom(s, events, n - 1), t)
      case Tick(now) => Cleanup(RunFrom(s, events, n - 1), now)
  }

  ghost predicate SomeReceipt(events: seq<Event>, n: nat) {
    exists k :: 0 <= k < n <= |events| && events[k].Receipt?
  }

  /** Over every run with ticks: that something was received is known from the first receipt on, for
      ever. */
  lemma {:induction false} ReceivedIff(events: seq<Event>, n: nat)
    requires n <= |events|
    ensures RunFrom(Blank(), events, n).received <==> SomeReceipt(events, n)
  {
    if n > 0 {
      ReceivedIff(events, n - 1);
      assert SomeReceipt(events, n) <==> SomeReceipt(events, n - 1) || events[n - 1].Receipt?;
    }
  }

  /** Over every run, only the first receipt sets the base, to its own minute; every later one leaves
      the base where the cleanups have moved it. */
  lemma {:induction false} FirstReceiptSetsBase(events: seq<Event>, n: nat)
    requires n < |events| && events[n].Receipt?
    ensures var before, after := RunFrom(Blank(), events, n), RunFrom(Blank(), events, n + 1);
            if SomeReceipt(events, n) then after.base == before.base else IsMinuteOf(after.base, events[n].t)
  {
    ReceivedIff(events, n);
  }

  lemma {:induction false} MinutesLater(b: int, k: int)
    requires Round(b) == b
    ensures Round(b + k * MINUTE) == b + k * MINUTE
  {
  }

  lemma {:induction false} BaseIsWholeMinute(events: seq<Event>, n: nat)
    requires n <= |events|
    ensures Round(RunFrom(Blank(), events, n).base) == RunFrom(Blank(), events, n).base
  {
    if n > 0 {
      BaseIsWholeMinute(events, n - 1);
      match events[n - 1]
      case Receipt(t) =>
        MinutesLater(Round(t), 0);
      case Tick(now) =>
        var s := RunFrom(Blank(), events, n - 1);
        MinutesLater(s.base, NextReceived(s.slots, 1) + 1);
    }
  }

  /** And every receipt sets the one slot whose minute it lies in, counted from the base as the cleanups
      have moved it; a receipt outside the 120 minutes sets none. */
  lemma {:induction false} ReceiptSetsItsSlot(events: seq<Event>, n: nat)
    requires n < |events| && events[n].Receipt?
    ensures var before, after := RunFrom(Blank(), events, n), RunFrom(Blank(), events, n + 1);
            forall m | 0 <= m < 120 ::
              after.slots[m] <==> before.slots[m] || Minute(events[n].t) == Minute(after.base) + m
  {
    BaseIsWholeMinute(events, n + 1);
    IndexIsMinute(events[n].t, RunFrom(Blank(), events, n + 1).base);
  }

  /** A dead recorder stays dead: every later receipt lands beyond the bitmap, so whatever is
      received the summaries keep reporting that everything was dropped. */
  lemma {:induction false} DeadForever(s: State, events: seq<Event>, n: nat, now: int)
    requires n <= |events| && Dead(s)
    requires forall k | 0 <= k < n && events[k].Receipt? :: events[k].t >= ZERO_TIME + EXPIRED_INTERVAL
    ensures RunFrom(s, events, n) == s
    ensures SummaryOf(RunFrom(s, events, n), now) == TransactionSummary(1.0, 0, true, 0)
  {
    if n > 0 {
      DeadForever(s, events, n - 1, now);
      match events[n - 1]
      case Receipt(t) =>
        IndexIsMinute(t, ZERO_TIME);
      case Tick(at) =>
        assert 0 !in Marked(s.slots);
        assert s.slots[0 := false] == s.slots;
        assert NextReceived(s.slots, 1) in Marked(s.slots) || NextReceived(s.slots, 1) == INDEX_NOT_FOUND;
    }
  }

  /** The shortest run that dies: one receipt, and a tick two hours after its minute. */
  lemma {:induction false} OneReceiptDies(t: int, now: int)
    requires ZERO_TIME < Round(t) <= now - EXPIRED_INTERVAL
    ensures Dead(RunFrom(Blank(), [Receipt(t), Tick(now)], 2))
  {
    var events := [Receipt(t), Tick(now)];
    var s := RunFrom(Blank(), events, 1);
    assert RunFrom(Blank(), events, 0) == Blank();
    assert s == AddReceipt(Blank(), t);
    IndexIsMinute(t, t);
    assert forall m | 1 <= m < TOTAL :: !s.slots[m];
    CleanupKillsIff(s, now);
  }

  /** Every state: the drop rate lies in [0, 1], and is 1 exactly when receipts have come but
      none is left. */
  lemma {:induction false} DropRateBounds(s: State, now: int)
    ensures 0.0 <= SummaryOf(s, now).droprate <= 1.0
    ensures SummaryOf(s, now).droprate == 1.0 <==> s.received && Marked(s.slots) == {}
    ensures !s.received && Marked(s.slots) == {} ==> SummaryOf(s, now).droprate == 0.0
  {
    assert Marked(s.slots) != {} ==> |Marked(s.slots)| > 0;
  }
}
