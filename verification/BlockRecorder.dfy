/** The block recorder as the program runs it: an object whose methods update the ring, the fork
    detector and the list of long confirmations in place. */
module BlockRecorder {
  import opened Clock
  import opened Block
  import opened BlockRing
  import opened BlockGaps
  import opened ForkTrace
  import opened BlocksSummary

  const LONG_CONFIRM_INTERVAL: int := 30 * MINUTE
  const INDEX_NOT_FOUND: int := -1

  /** The block was received 30 minutes or more after its generation. */
  predicate IsLate(b: BlockData) {
    Sub(b.receivedTime, b.generateTime) >= LONG_CONFIRM_INTERVAL
  }

  /** The long confirmation that `next` gives rise to, if any. */
  function LongConfirmOf(next: BlockData): seq<LongConfirm> {
    if IsLate(next) then
      var period := Sub(next.receivedTime, next.generateTime);
      [LongConfirm(next.number, next.receivedTime + EXPIRED_INTERVAL, period, false)]
    else []
  }

  /** A late block is recorded with its number, an expiry two hours after its receipt, and the time
      from its generation to its receipt; any other block is not recorded. */
  ghost predicate RecordsLateness(l: seq<LongConfirm>, l': seq<LongConfirm>, b: BlockData) {
    if b.receivedTime - b.generateTime >= 1_800_000_000_000 then
      l' == l + [LongConfirm(b.number, b.receivedTime + 7_200_000_000_000, Sub(b.receivedTime, b.generateTime), false)]
    else l' == l
  }

  /** What the cleanup of long confirmations does: it keeps the list from the last entry that has not
      expired on, and all of it when that is the first one or there is none. */
  ghost predicate CutAtLastLive(l: seq<LongConfirm>, l': seq<LongConfirm>, now: int) {
    exists k: nat :: k <= |l| && l' == l[k..] && (k > 0 ==> k < |l| && now < l[k].expiredAt)
                     && forall i | k < i < |l| :: now >= l[i].expiredAt
  }

  /** The last entry still live at `now`, or 0 when there is none. */
  function LastLiveConfirm(l: seq<LongConfirm>, now: int): (k: nat)
    ensures k < |l| || k == |l| == 0
    ensures k > 0 ==> now < l[k].expiredAt
    ensures forall i | k < i < |l| :: now >= l[i].expiredAt
  {
    if l == [] then 0
    else if now < l[|l| - 1].expiredAt then |l| - 1
    else LastLiveConfirm(l[..|l| - 1], now)
  }

  /** It is the only position with no live entry behind it that is live itself or 0. */
  lemma {:induction false} IsLastLiveConfirm(l: seq<LongConfirm>, now: int, k: nat)
    requires k > 0 ==> k < |l| && now < l[k].expiredAt
    requires forall i | k < i < |l| :: now >= l[i].expiredAt
    ensures LastLiveConfirm(l, now) == k
  {
    if l != [] && now >= l[|l| - 1].expiredAt {
      IsLastLiveConfirm(l[..|l| - 1], now, k);
    }
  }

  /** `cleanupExpiredLongConfirms`: the list from its last live entry on, or all of it. */
  function FromLastLive(l: seq<LongConfirm>, now: int): seq<LongConfirm> {
    l[LastLiveConfirm(l, now)..]
  }

  /** The long confirmations after one event. */
  function ConfirmsAfter(l: seq<LongConfirm>, e: Event): seq<LongConfirm> {
    match e
    case Received(b) => l + LongConfirmOf(b)
    case Tick(now) => FromLastLive(l, now)
  }

  /** The long confirmations held after the first `n` events. */
  function ConfirmRun(events: seq<Event>, n: nat): seq<LongConfirm>
    requires n <= |events|
  {
    if n == 0 then [] else ConfirmsAfter(ConfirmRun(events, n - 1), events[n - 1])
  }

  lemma {:induction false} FromLastLiveCuts(l: seq<LongConfirm>, now: int)
    ensures CutAtLastLive(l, FromLastLive(l, now), now)
  {
    var k := LastLiveConfirm(l, now);
    assert FromLastLive(l, now) == l[k..];
  }

  lemma {:induction false} FromLastLiveKeeps(l: seq<LongConfirm>, now: int)
    ensures forall c | c in FromLastLive(l, now) :: c in l
  {
  }

  /** The recorder itself never marks a long confirmation as reported: only summaries do. */
  lemma {:induction false} HeldAreUnreported(events: seq<Event>, n: nat)
    requires n <= |events|
    ensures forall c | c in ConfirmRun(events, n) :: !c.reported
  {
    if n > 0 {
      HeldAreUnreported(events, n - 1);
      match events[n - 1]
      case Received(_) =>
      case Tick(now) => FromLastLiveKeeps(ConfirmRun(events, n - 1), now);
    }
  }

  /** The event brings a block 30 minutes or more after its generation. */
  predicate BringsLate(e: Event) {
    e.Received? && e.block.receivedTime - e.block.generateTime >= 1_800_000_000_000
  }

  ghost predicate SomeLate(events: seq<Event>, n: nat) {
    exists k :: 0 <= k < n <= |events| && BringsLate(events[k])
  }

  /** Long confirmations never run out: once some block has been late, at any time in the past, one
      is held for ever, whatever the ticks. */
  lemma {:induction false} ConfirmsHeldIff(events: seq<Event>, n: nat)
    requires n <= |events|
    ensures ConfirmRun(events, n) != [] <==> SomeLate(events, n)
  {
    if n > 0 {
      ConfirmsHeldIff(events, n - 1);
      SomeLateStep(events, n);
      ConfirmsStep(events, n);
    }
  }

  lemma {:induction false} SomeLateStep(events: seq<Event>, n: nat)
    requires 0 < n <= |events|
    ensures SomeLate(events, n) <==> SomeLate(events, n - 1) || BringsLate(events[n - 1])
  {
  }

  lemma {:induction false} ConfirmsStep(events: seq<Event>, n: nat)
    requires 0 < n <= |events|
    ensures ConfirmRun(events, n) != [] <==> ConfirmRun(events, n - 1) != [] || BringsLate(events[n - 1])
  {
    EventConfirms(ConfirmRun(events, n - 1), events[n - 1]);
  }

  lemma {:induction false} EventConfirms(l: seq<LongConfirm>, e: Event)
    ensures ConfirmsAfter(l, e) != [] <==> l != [] || BringsLate(e)
  {
  }

  /** What the cleanup of forks does: it keeps what follows the last fork past its expiry. */
  ghost predicate CutAfterExpired(forks: seq<Fork>, forks': seq<Fork>, now: int) {
    exists k: nat :: k <= |forks| && forks' == forks[k..] && (k > 0 ==> now > forks[k - 1].expiredAt)
                     && forall i | k <= i < |forks| :: now <= forks[i].expiredAt
  }

  // Runs do not depend on what comes after them.

  lemma {:induction false} RingPrefix(log: seq<Event>, e: Event, n: nat)
    requires n <= |log|
    ensures Run(log + [e], n) == Run(log, n)
  {
    if n > 0 {
      RingPrefix(log, e, n - 1);
    }
  }

  lemma {:induction false} ForkPrefix(log: seq<Event>, e: Event, n: nat)
    requires n <= |log|
    ensures ForkRun(log + [e], n) == ForkRun(log, n)
  {
    if n > 0 {
      ForkPrefix(log, e, n - 1);
    }
  }

  lemma {:induction false} ConfirmPrefix(log: seq<Event>, e: Event, n: nat)
    requires n <= |log|
    ensures ConfirmRun(log + [e], n) == ConfirmRun(log, n)
  {
    if n > 0 {
      ConfirmPrefix(log, e, n - 1);
      var last := log[n - 1];
      assert (log + [e])[n - 1] == last;
      assert ConfirmRun(log, n) == ConfirmsAfter(ConfirmRun(log, n - 1), last);
    }
  }

  lemma {:induction false} RunSnoc(log: seq<Event>, e: Event)
    requires Run(log, |log|).Some?
    ensures Run(log + [e], |log + [e]|) == RingAfter(Run(log, |log|).value, e)
  {
    RingPrefix(log, e, |log|);
  }

  lemma {:induction false} ForkRunSnoc(log: seq<Event>, e: Event)
    ensures ForkRun(log + [e], |log + [e]|) == DetectorAfter(ForkRun(log, |log|), e)
  {
    ForkPrefix(log, e, |log|);
  }

  lemma {:induction false} ConfirmRunSnoc(log: seq<Event>, e: Event)
    ensures ConfirmRun(log + [e], |log + [e]|) == ConfirmsAfter(ConfirmRun(log, |log|), e)
  {
    ConfirmPrefix(log, e, |log|);
  }

  /** Ring, detector and long confirmations are where the run of the log leads. */
  ghost predicate Follows(log: seq<Event>, ring: Ring, detector: ForkState, confirms: seq<LongConfirm>) {
    && Run(log, |log|) == Some(ring)
    && ForkRun(log, |log|) == detector
    && ConfirmRun(log, |log|) == confirms
  }

  lemma {:induction false} FollowsOn(log: seq<Event>, ring: Ring, detector: ForkState,
                                     confirms: seq<LongConfirm>, e: Event, ring': Ring)
    requires Follows(log, ring, detector, confirms)
    requires |ring.slots| == DATA_LENGTH && RingAfter(ring, e) == Some(ring')
    ensures Follows(log + [e], ring', DetectorAfter(detector, e), ConfirmsAfter(confirms, e))
  {
    RunSnoc(log, e);
    ForkRunSnoc(log, e);
    ConfirmRunSnoc(log, e);
  }

  /** The time since the receipt of one of the lowest-numbered blocks of `l`. */
  ghost predicate SinceLowest(duration: int, l: seq<BlockData>, now: int) {
    exists i :: 0 <= i < |l| && duration == Sub(now, l[i].receivedTime) && forall b | b in l :: l[i].number <= b.number
  }

  lemma {:induction false} WalkStartsLowest(r: Ring, now: int)
    requires WellFormed(r) && Recency(r) != []
    ensures SinceLowest(Sub(now, WalkOf(r.slots)[0].receivedTime), Recency(r), now)
  {
    var l, scan := Recency(r), Scanned(r.slots);
    ScannedIsOccupied(r);
    WalkEnds(r.slots);
    var first := WalkOf(r.slots)[0];
    assert first == scan[MinIndex(scan)];
    assert first in l by {
      if Full(r.slots) {
        assert r.slots == r.slots[..r.id] + r.slots[r.id..];
      }
    }
    forall b | b in l ensures first.number <= b.number {
      assert b.number in Numbers(scan);
    }
  }

  /** The inputs for which the gap report is exact. */
  ghost predicate OrderedLog(log: seq<Event>) {
    && ListRun(log, |log|) != []
    && AllValid(History(log, |log|)) && NumberOrdered(History(log, |log|))
    && OrderedAtTicks(log, |log|) && NeverSplit(log, |log|)
  }

  /** The inputs for which the list of forks is exact. */
  ghost predicate ForksInOrder(log: seq<Event>) {
    HashedConsistently(log, |log|) && TimeOrdered(History(log, |log|))
  }

  lemma {:induction false} LogFacts(log: seq<Event>, ring: Ring, now: int)
    requires Run(log, |log|) == Some(ring)
    ensures WellFormed(ring) && Recency(ring) != [] ==>
              SinceLowest(Sub(now, WalkOf(ring.slots)[0].receivedTime), Recency(ring), now)
    ensures OrderedLog(log) ==> ReportOn(WalkOf(ring.slots)) == TrueReport(ListRun(log, |log|))
    ensures ForksInOrder(log) ==> ForkRun(log, |log|).forks == Kept(log, |log|)
  {
    if WellFormed(ring) && Recency(ring) != [] {
      WalkStartsLowest(ring, now);
    }
    if OrderedLog(log) {
      GapReportOverRuns(log, |log|);
    }
    if ForksInOrder(log) {
      ForkListIsExact(log, |log|);
    }
  }

  class Blocks {
    var data: array<BlockData>
    var latestBlock: BlockData
    var forkInProgress: bool
    var forks: seq<Fork>
    var longConfirms: seq<LongConfirm>
    var id: nat

    /** Everything the recorder has been given so far. */
    ghost var log: seq<Event>

    ghost predicate Valid()
      reads this
    {
      data.Length == DATA_LENGTH && id <= DATA_LENGTH
    }

    ghost function RingState(): Ring
      reads this, data
    {
      Ring(data[..], id)
    }

    ghost function Detector(): ForkState
      reads this
    {
      ForkState(latestBlock, forkInProgress, forks)
    }

    /** The object is where the run of its log leads. */
    ghost predicate FollowsLog()
      reads this, data
    {
      Valid() && Follows(log, RingState(), Detector(), longConfirms)
    }

    constructor ()
      ensures FollowsLog() && log == [] && fresh(data)
      ensures longConfirms == []
    {
      data := new BlockData[DATA_LENGTH](_ => NO_BLOCK);
      latestBlock := NO_BLOCK;
      forkInProgress, forks, longConfirms, id, log := false, [], [], 0, [];
      new;
      assert data[..] == Blanks(DATA_LENGTH);
    }

    // -------------------------------------------------------------- Add

    method ProcessFirstForkBlock(nextBlock: BlockData)
      modifies this`forkInProgress, this`forks
      ensures forkInProgress == (old(forkInProgress) || latestBlock.number != nextBlock.number)
      ensures forks == old(forks) + [Fork(nextBlock.number, latestBlock.number,
                                          nextBlock.receivedTime + 7_200_000_000_000)]
    {
      if latestBlock.number != nextBlock.number {
        forkInProgress := true;
      }
      forks := forks + [Fork(nextBlock.number, latestBlock.number, nextBlock.receivedTime + EXPIRED_INTERVAL)];
    }

    method UpdateForkInfo(nextBlock: BlockData)
      requires IsFork(latestBlock, nextBlock)
      modifies this`forkInProgress, this`forks
      ensures Detector() == ProcessFork(old(Detector()), nextBlock)
    {
      if !forkInProgress {
        ProcessFirstForkBlock(nextBlock);
      } else if latestBlock.number == nextBlock.number {
        forkInProgress := false;
      }
    }

    method ProcessForkBlock(nextBlock: BlockData)
      modifies this`forkInProgress, this`forks
      ensures Detector() == ProcessFork(old(Detector()), nextBlock)
      ensures latestBlock.number == 0 || latestBlock.hash == "" ==> !forkInProgress && forks == old(forks)
    {
      if IsFork(latestBlock, nextBlock) {
        UpdateForkInfo(nextBlock);
      } else if forkInProgress {
        forkInProgress := false;
      }
    }

    method AddBlock(nextBlock: BlockData)
      requires Valid() && id < DATA_LENGTH
      modifies this`id, data
      ensures Valid() && Some(RingState()) == Put(old(RingState()), nextBlock)
    {
      data[id] := nextBlock;
      if id == DATA_LENGTH - 1 {
        id := 0;
      } else {
        id := id + 1;
      }
    }

    method UpdateLatestBlock(nextBlock: BlockData)
      modifies this`latestBlock
      ensures latestBlock == UpdateLatest(old(latestBlock), nextBlock)
    {
      if nextBlock.number >= latestBlock.number && nextBlock.hash != latestBlock.hash {
        latestBlock := nextBlock;
      }
    }

    method UpdateLongConfirmPeriodInfo(nextBlock: BlockData)
      modifies this`longConfirms
      ensures longConfirms == old(longConfirms) + LongConfirmOf(nextBlock)
      ensures RecordsLateness(old(longConfirms), longConfirms, nextBlock)
    {
      var confirmInterval := Sub(nextBlock.receivedTime, nextBlock.generateTime);
      if confirmInterval >= LONG_CONFIRM_INTERVAL {
        var expiredAt := nextBlock.receivedTime + EXPIRED_INTERVAL;
        longConfirms := longConfirms + [LongConfirm(nextBlock.number, expiredAt, confirmInterval, false)];
      }
    }

    /** The four steps of `Add` on a stamped block. */
    method Record(nextBlock: BlockData)
      requires Valid() && id < DATA_LENGTH
      modifies this`latestBlock, this`forkInProgress, this`forks, this`longConfirms, this`id, data
      ensures Valid()
      ensures Some(RingState()) == Put(old(RingState()), nextBlock)
      ensures Detector() == Receive(old(Detector()), nextBlock)
      ensures longConfirms == old(longConfirms) + LongConfirmOf(nextBlock)
    {
      ProcessForkBlock(nextBlock);
      AddBlock(nextBlock);
      UpdateLatestBlock(nextBlock);
      UpdateLongConfirmPeriodInfo(nextBlock);
    }

    /** `Add`: the source's array access panics when the write position is 100. */
    method Add(t: int, block: BlockData)
      requires Valid() && id < DATA_LENGTH
      modifies this, data
      ensures Valid() && data == old(data)
      ensures log == old(log) + [Received(block.(receivedTime := t))]
      ensures Some(RingState()) == Put(old(RingState()), block.(receivedTime := t))
      ensures Detector() == Receive(old(Detector()), block.(receivedTime := t))
      ensures longConfirms == old(longConfirms) + LongConfirmOf(block.(receivedTime := t))
      ensures old(FollowsLog()) ==> FollowsLog()
    {
      var nextBlock := block.(receivedTime := t);
      if FollowsLog() {
        var ring' := Put(RingState(), nextBlock).value;
        FollowsOn(log, RingState(), Detector(), longConfirms, Received(nextBlock), ring');
      }
      Record(nextBlock);
      log := log + [Received(nextBlock)];
    }

    // -------------------------------------------------------------- PeriodicRemove

    /** The scan of `cleanupExpiredBlocks`. */
    method FindLiveSpan(now: int) returns (startIdx: int, endIdx: int)
      requires Valid()
      ensures startIdx == INDEX_NOT_FOUND ==> NoneLive(data[..], DATA_LENGTH, now)
      ensures startIdx != INDEX_NOT_FOUND ==>
                startIdx >= 0 && endIdx >= 0 && LiveSpan(data[..], 100, now, startIdx, endIdx)
    {
      var expiredTime := now - EXPIRED_INTERVAL;
      startIdx, endIdx := INDEX_NOT_FOUND, INDEX_NOT_FOUND;
      var i := 0;
      while i < DATA_LENGTH
        invariant 0 <= i <= DATA_LENGTH
        invariant forall j | 0 <= j < i :: !IsEmpty(data[j])
        invariant startIdx == INDEX_NOT_FOUND ==> NoneLive(data[..], i, now)
        invariant startIdx != INDEX_NOT_FOUND ==>
                    startIdx >= 0 && endIdx >= 0 && LiveSpan(data[..], i, now, startIdx, endIdx)
      {
        if IsEmpty(data[i]) {
          assert forall k: nat | i <= k < DATA_LENGTH :: !LiveAt(data[..], k, now);
          break;
        }
        if data[i].receivedTime > expiredTime {
          assert LiveAt(data[..], i, now);
          if startIdx == INDEX_NOT_FOUND {
            startIdx, endIdx := i, i;
          } else {
            endIdx := i;
          }
        }
        i := i + 1;
      }
    }

    method CleanupExpiredBlocks(now: int)
      requires Valid()
      modifies this`data, this`id
      ensures Valid() && (data == old(data) || fresh(data))
      ensures RingState() == Cleanup(old(RingState()), now)
    {
      var startIdx, endIdx := FindLiveSpan(now);
      if startIdx == INDEX_NOT_FOUND {
        return;
      }
      var tempArray := new BlockData[DATA_LENGTH](_ => NO_BLOCK);
      forall k | 0 <= k < endIdx + 1 - startIdx {
        tempArray[k] := data[startIdx + k];
      }
      assert tempArray[..] == Compacted(data[..], startIdx, endIdx).slots;
      data := tempArray;
      id := endIdx - startIdx + 1;
    }

    method CleanupExpiredForks(now: int)
      modifies this`forks
      ensures forks == AfterLastExpired(old(forks), now)
      ensures CutAfterExpired(old(forks), forks, now)
    {
      var endIdx := INDEX_NOT_FOUND;
      for i := 0 to |forks|
        invariant -1 <= endIdx < i
        invariant endIdx >= 0 ==> Expired(forks[endIdx], now)
        invariant forall j | endIdx < j < i :: !Expired(forks[j], now)
      {
        if now > forks[i].expiredAt {
          endIdx := i;
        }
      }
      TailAfterLastExpired(forks, now, endIdx + 1);
      CutAt(forks, now, endIdx + 1);
      if endIdx >= |forks| {
        assert false;  // the source empties the list here, but an index is never that large
      } else {
        forks := forks[endIdx + 1..];
      }
    }

    method CleanupExpiredLongConfirms(now: int)
      modifies this`longConfirms
      ensures longConfirms == FromLastLive(old(longConfirms), now)
      ensures CutAtLastLive(old(longConfirms), longConfirms, now)
    {
      var startIdx := 0;
      for i := 0 to |longConfirms|
        invariant 0 <= startIdx && (startIdx < i || i == startIdx == 0)
        invariant startIdx > 0 ==> now < longConfirms[startIdx].expiredAt
        invariant forall j | startIdx < j < i :: now >= longConfirms[j].expiredAt
      {
        if now < longConfirms[i].expiredAt {
          startIdx := i;
        }
      }
      IsLastLiveConfirm(longConfirms, now, startIdx);
      FromLastLiveCuts(longConfirms, now);
      if startIdx != 0 {
        longConfirms := longConfirms[startIdx..];
      }
    }

    /** The three cleanups of one tick of `PeriodicRemove`. */
    method Cleanups(now: int)
      requires Valid()
      modifies this`data, this`id, this`forks, this`longConfirms
      ensures Valid() && (data == old(data) || fresh(data))
      ensures RingState() == Cleanup(old(RingState()), now)
      ensures forks == AfterLastExpired(old(forks), now)
      ensures longConfirms == FromLastLive(old(longConfirms), now)
    {
      CleanupExpiredBlocks(now);
      CleanupExpiredForks(now);
      CleanupExpiredLongConfirms(now);
    }

    /** One tick of `PeriodicRemove`, recorded in the log. */
    method Expire(now: int)
      requires Valid()
      modifies this
      ensures Valid() && (data == old(data) || fresh(data))
      ensures log == old(log) + [Tick(now)]
      ensures RingState() == Cleanup(old(RingState()), now)
      ensures Detector() == old(Detector()).(forks := AfterLastExpired(old(forks), now))
      ensures longConfirms == FromLastLive(old(longConfirms), now)
      ensures old(FollowsLog()) ==> FollowsLog()
    {
      if FollowsLog() {
        FollowsOn(log, RingState(), Detector(), longConfirms, Tick(now), Cleanup(RingState(), now));
      }
      Cleanups(now);
      log := log + [Tick(now)];
    }

    // -------------------------------------------------------------- Summary

    /** `summarize`: nothing while slot 0 has never been written; otherwise the gap report. */
    method Summarize(now: int) returns (duration: int, blockCount: nat, missing: seq<nat>)
      requires Valid()
      ensures data[0].receivedTime == ZERO_TIME ==> (duration, blockCount, missing) == (0, 0, [])
      ensures data[0].receivedTime != ZERO_TIME ==>
                && Report(blockCount, missing) == ReportOn(WalkOf(data[..]))
                && duration == Sub(now, WalkOf(data[..])[0].receivedTime)
    {
      if data[0].receivedTime == ZERO_TIME {
        return 0, 0, [];
      }
      var sorted := SortArray(data);
      blockCount, missing := MissingBlocks(sorted);
      duration := Sub(now, sorted[0].receivedTime);
    }

    /** `Summary`. When the log is in order its gap report is right about the recent blocks, and its
        forks are exactly those that have opened and have not been found expired. */
    method Summary(now: int) returns (summary: BlocksSummary.Summary)
      requires FollowsLog()
      ensures fresh(summary)
      ensures summary.forks == forks && summary.longConfirms == longConfirms
      ensures data[0].receivedTime == ZERO_TIME ==>
                summary.blockCount == 0 && summary.missingBlocks == [] && summary.duration == 0
      ensures data[0].receivedTime != ZERO_TIME ==>
                Report(summary.blockCount, summary.missingBlocks) == ReportOn(WalkOf(data[..]))
      ensures WellFormed(RingState()) && Recency(RingState()) != [] && data[0].receivedTime != ZERO_TIME ==>
                SinceLowest(summary.duration, Recency(RingState()), now)
      ensures OrderedLog(log) && data[0].receivedTime != ZERO_TIME ==>
                Report(summary.blockCount, summary.missingBlocks) == TrueReport(ListRun(log, |log|))
      ensures ForksInOrder(log) ==> summary.forks == Kept(log, |log|)
    {
      var duration, blockCount, missing := Summarize(now);
      LogFacts(log, RingState(), now);
      summary := new BlocksSummary.Summary(blockCount, duration, forks, longConfirms, missing);
    }
  }

  /** The inputs for which a whole summary is exact: at least one block, all of them valid, stamped
      and in number and receive order, each hash one block, and no split tick. */
  ghost predicate InOrder(log: seq<Event>) {
    var h := History(log, |log|);
    && h != [] && (forall i | 0 <= i < |h| :: h[i].receivedTime != ZERO_TIME)
    && HashedConsistently(log, |log|) && NumberOrdered(h) && TimeOrdered(h)
    && NeverSplit(log, |log|)
  }

  /** In a ring that holds the newest blocks of `h`, slot 0 holds one of them. */
  lemma {:induction false} FirstSlotIsReceived(r: Ring, l: seq<BlockData>, h: seq<BlockData>)
    requires Represents(r, l, h) && l != []
    ensures r.slots[0] in h
  {
    assert r.slots[0] in l by {
      if Full(r.slots) {
        assert r.slots[0] == l[if r.id == 0 then 0 else DATA_LENGTH - r.id];
      } else {
        assert r.slots[0] == l[0];
      }
    }
    assert forall i | 0 <= i < |l| :: l[i] == h[|h| - |l| + i];
  }

  lemma {:induction false} InOrderFacts(log: seq<Event>, ring: Ring)
    requires InOrder(log) && Run(log, |log|) == Some(ring)
    ensures ListRun(log, |log|) != [] && ring.slots[0].receivedTime != ZERO_TIME
    ensures ReportOn(WalkOf(ring.slots)) == TrueReport(ListRun(log, |log|))
    ensures ForkRun(log, |log|).forks == Kept(log, |log|)
  {
    OrderedHistory(log, |log|);
    ListRunEmptyIff(log, |log|);
    RingRefinesList(log, |log|);
    FirstSlotIsReceived(ring, ListRun(log, |log|), History(log, |log|));
    GapReportOverRuns(log, |log|);
    ForkListIsExact(log, |log|);
  }

  lemma {:induction false} UnreportedIff(events: seq<Event>, n: nat)
    requires n <= |events|
    ensures Unreported(ConfirmRun(events, n)) != [] <==> SomeLate(events, n)
  {
    HeldAreUnreported(events, n);
    ConfirmsHeldIff(events, n);
    var l := ConfirmRun(events, n);
    assert l != [] ==> l[0] in l;
  }

  lemma {:induction false} UnhashedFacts(log: seq<Event>, ring: Ring)
    requires Unhashed(log, |log|) && Run(log, |log|) == Some(ring)
    ensures ReportOn(WalkOf(ring.slots)).missing == [] && ForkRun(log, |log|).forks == []
  {
    UnhashedBlocksHideGaps(log, |log|);
    UnhashedBlocksHideForks(log, |log|);
  }

  /** What the check notifies on, for a log in order: the recent blocks lack a number, a fork has
      opened and has not been found expired, or some block has ever been late. */
  ghost predicate Noteworthy(log: seq<Event>)
    requires InOrder(log)
  {
    ListRunEmptyIff(log, |log|);
    || TrueReport(ListRun(log, |log|)).missing != []
    || Kept(log, |log|) != []
    || SomeLate(log, |log|)
  }

  /** The check of the monitor's loop: take a summary and notify when it is not valid. Without
      hashes, as the receiver hands the blocks over, lateness is all it ever notifies on. */
  method CheckBlocks(b: Blocks, now: int) returns (notify: bool)
    requires b.FollowsLog()
    ensures InOrder(b.log) ==> (notify <==> Noteworthy(b.log))
    ensures Unhashed(b.log, |b.log|) ==> (notify <==> SomeLate(b.log, |b.log|))
  {
    var summary := b.Summary(now);
    ghost var log := b.log;
    UnreportedIff(log, |log|);
    if InOrder(log) {
      InOrderFacts(log, b.RingState());
    }
    if Unhashed(log, |log|) {
      UnhashedFacts(log, b.RingState());
    }
    var ok := summary.Valid();
    notify := !ok;
  }

  lemma {:induction false} CutAt(forks: seq<Fork>, now: int, k: nat)
    requires k <= |forks| && (k > 0 ==> now > forks[k - 1].expiredAt)
    requires forall i | k <= i < |forks| :: now <= forks[i].expiredAt
    ensures CutAfterExpired(forks, forks[k..], now)
  {
  }

  lemma {:induction false} TailAfterLastExpired(forks: seq<Fork>, now: int, k: nat)
    requires k <= |forks|
    requires k > 0 ==> Expired(forks[k - 1], now)
    requires forall i | k <= i < |forks| :: !Expired(forks[i], now)
    ensures AfterLastExpired(forks, now) == forks[k..]
  {
    if k < |forks| {
      var init := forks[..|forks| - 1];
      TailAfterLastExpired(init, now, k);
      assert forks[k..] == init[k..] + [forks[|forks| - 1]];
    }
  }
}
