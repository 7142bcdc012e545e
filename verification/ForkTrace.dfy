/** The fork detector: a one-pass state machine over the received blocks, and the trace of forks
    it stands for, described without any state. */
module ForkTrace {
  import opened Clock
  import opened Block

  datatype Fork = Fork(begin: nat, end: nat, expiredAt: int)

  datatype ForkState = ForkState(latest: BlockData, inProgress: bool, forks: seq<Fork>)

  // ---------------------------------------------------------------- the state machine

  predicate IsFork(latest: BlockData, next: BlockData) {
    && !IsEmpty(latest)
    && (latest.number > next.number || (latest.number == next.number && latest.hash != next.hash))
  }

  function NewFork(latest: BlockData, next: BlockData): Fork {
    Fork(next.number, latest.number, next.receivedTime + EXPIRED_INTERVAL)
  }

  /** `processFork`. */
  function ProcessFork(s: ForkState, next: BlockData): ForkState {
    if !IsFork(s.latest, next) then s.(inProgress := false)
    else if s.inProgress then s.(inProgress := s.latest.number != next.number)
    else s.(inProgress := s.latest.number != next.number, forks := s.forks + [NewFork(s.latest, next)])
  }

  /** `updateLatestBlock`. */
  function UpdateLatest(latest: BlockData, next: BlockData): BlockData {
    if next.number >= latest.number && next.hash != latest.hash then next else latest
  }

  function Receive(s: ForkState, next: BlockData): ForkState {
    ProcessFork(s, next).(latest := UpdateLatest(s.latest, next))
  }

  predicate Expired(f: Fork, now: int) {
    now > f.expiredAt
  }

  /** `cleanupExpiredForks`: what follows the last expired fork. */
  function AfterLastExpired(forks: seq<Fork>, now: int): seq<Fork> {
    if forks == [] || Expired(forks[|forks| - 1], now) then []
    else AfterLastExpired(forks[..|forks| - 1], now) + [forks[|forks| - 1]]
  }

  /** The detector after one event. */
  function DetectorAfter(s: ForkState, e: Event): ForkState {
    match e
    case Received(b) => Receive(s, b)
    case Tick(now) => s.(forks := AfterLastExpired(s.forks, now))
  }

  function ForkRun(events: seq<Event>, n: nat): ForkState
    requires n <= |events|
  {
    if n == 0 then ForkState(NO_BLOCK, false, []) else DetectorAfter(ForkRun(events, n - 1), events[n - 1])
  }

  // ---------------------------------------------------------------- the trace of forks

  /** Block `i` is strictly below some earlier block. */
  ghost predicate Below(h: seq<BlockData>, i: nat) {
    i < |h| && exists j :: 0 <= j < i && h[j].number > h[i].number
  }

  /** The highest number among the first `n` blocks. */
  ghost function HighestOf(h: seq<BlockData>, n: nat): (m: nat)
    requires n <= |h|
    ensures forall j | 0 <= j < n :: h[j].number <= m
    ensures n > 0 ==> exists j :: 0 <= j < n && h[j].number == m
  {
    if n == 0 then 0
    else if h[n - 1].number >= HighestOf(h, n - 1) then h[n - 1].number
    else HighestOf(h, n - 1)
  }

  /** The latest of the first `n` blocks that was not below an earlier one. */
  ghost function LastTop(h: seq<BlockData>, n: nat): (k: nat)
    requires 0 < n <= |h|
    ensures k < n && !Below(h, k) && h[k].number == HighestOf(h, n)
    ensures forall j | k < j < n :: Below(h, j)
  {
    if Below(h, n - 1) then LastTop(h, n - 1) else n - 1
  }

  /** A fork opens at block `i`: it is below an earlier block, or replaces the highest one under
      another hash, and the block before it was not below an earlier one. */
  ghost predicate Opens(h: seq<BlockData>, i: nat) {
    && 0 < i < |h|
    && !Below(h, i - 1)
    && (Below(h, i) || (h[i].number == HighestOf(h, i) && h[i].hash != h[LastTop(h, i)].hash))
  }

  ghost function ForkAt(h: seq<BlockData>, i: nat): Fork
    requires i < |h|
  {
    Fork(h[i].number, HighestOf(h, i), h[i].receivedTime + 7_200_000_000_000)
  }

  /** The forks that open among the first `n` blocks. */
  ghost function Trace(h: seq<BlockData>, n: nat): seq<Fork>
    requires n <= |h|
  {
    if n == 0 then []
    else Trace(h, n - 1) + (if Opens(h, n - 1) then [ForkAt(h, n - 1)] else [])
  }

  /** Blocks with the same hash are the same block, so carry the same number. */
  ghost predicate HashFixesNumber(h: seq<BlockData>) {
    forall i, j | 0 <= i < |h| && 0 <= j < |h| && h[i].hash == h[j].hash :: h[i].number == h[j].number
  }

  /** What the machine knows about the history `h`, apart from the list of forks. */
  ghost predicate Tracks(s: ForkState, h: seq<BlockData>) {
    && s.latest.number == HighestOf(h, |h|)
    && (h == [] ==> s.latest == NO_BLOCK)
    && (h != [] ==> s.latest.hash == h[LastTop(h, |h|)].hash)
    && (s.inProgress <==> h != [] && Below(h, |h| - 1))
  }

  /** Extending the history does not change what it says about earlier blocks. */
  lemma {:induction false} HighestStable(h: seq<BlockData>, b: BlockData, n: nat)
    requires n <= |h|
    ensures HighestOf(h + [b], n) == HighestOf(h, n)
  {
    if n > 0 {
      HighestStable(h, b, n - 1);
    }
  }

  lemma {:induction false} BelowStable(h: seq<BlockData>, b: BlockData, i: nat)
    requires i < |h|
    ensures Below(h + [b], i) <==> Below(h, i)
  {
    if Below(h, i) {
      var j :| 0 <= j < i && h[j].number > h[i].number;
      assert (h + [b])[j] == h[j];
    }
  }

  lemma {:induction false} LastTopStable(h: seq<BlockData>, b: BlockData, n: nat)
    requires 0 < n <= |h|
    ensures LastTop(h + [b], n) == LastTop(h, n)
  {
    BelowStable(h, b, n - 1);
    if Below(h, n - 1) {
      LastTopStable(h, b, n - 1);
    }
  }

  lemma {:induction false} OpensStable(h: seq<BlockData>, b: BlockData, i: nat)
    requires i < |h|
    ensures Opens(h + [b], i) <==> Opens(h, i)
    ensures ForkAt(h + [b], i) == ForkAt(h, i)
  {
    BelowStable(h, b, i);
    HighestStable(h, b, i);
    if i > 0 {
      BelowStable(h, b, i - 1);
      LastTopStable(h, b, i);
    }
  }

  lemma {:induction false} TraceStable(h: seq<BlockData>, b: BlockData, n: nat)
    requires n <= |h|
    ensures Trace(h + [b], n) == Trace(h, n)
  {
    if n > 0 {
      TraceStable(h, b, n - 1);
      OpensStable(h, b, n - 1);
    }
  }

  lemma {:induction false} BelowIffUnderHighest(h: seq<BlockData>, i: nat)
    requires i < |h|
    ensures Below(h, i) <==> h[i].number < HighestOf(h, i)
  {
    if h[i].number < HighestOf(h, i) && i > 0 {
      var j :| 0 <= j < i && h[j].number == HighestOf(h, i);
    }
  }

  /** The new block is a fork block exactly when it is below the highest one or ties with it
      under another hash. */
  lemma {:induction false} ForkBlocks(s: ForkState, h: seq<BlockData>, b: BlockData)
    requires Tracks(s, h) && AllValid(h + [b])
    ensures Below(h + [b], |h|) <==> b.number < s.latest.number
    ensures IsFork(s.latest, b) <==>
            h != [] && (b.number < s.latest.number || (b.number == s.latest.number && b.hash != s.latest.hash))
  {
    var h' := h + [b];
    assert h'[|h|] == b;
    HighestStable(h, b, |h|);
    BelowIffUnderHighest(h', |h|);
    if h != [] {
      assert !IsEmpty(h'[LastTop(h, |h|)]);
    }
  }

  lemma {:induction false} ReceiveTracks(s: ForkState, h: seq<BlockData>, b: BlockData)
    requires Tracks(s, h) && AllValid(h + [b]) && HashFixesNumber(h + [b])
    ensures Tracks(Receive(s, b), h + [b])
  {
    var h' := h + [b];
    ForkBlocks(s, h, b);
    HighestStable(h, b, |h|);
    assert h'[|h|] == b;
    if h != [] {
      var t := LastTop(h, |h|);
      LastTopStable(h, b, |h|);
      assert h'[t] == h[t];
      assert b.hash == h[t].hash ==> b.number == h[t].number;
    }
  }

  /** One block: the machine opens a fork exactly where the trace does. */
  lemma {:induction false} ReceiveFollowsTrace(s: ForkState, h: seq<BlockData>, b: BlockData)
    requires Tracks(s, h) && AllValid(h + [b])
    ensures Receive(s, b).forks == s.forks + (if Opens(h + [b], |h|) then [ForkAt(h + [b], |h|)] else [])
  {
    var h' := h + [b];
    assert h'[|h|] == b;
    ForkBlocks(s, h, b);
    HighestStable(h, b, |h|);
    if h != [] {
      LastTopStable(h, b, |h|);
      BelowStable(h, b, |h| - 1);
      assert h'[LastTop(h, |h|)] == h[LastTop(h, |h|)];
    }
  }

  ghost predicate HashedConsistently(events: seq<Event>, n: nat)
    requires n <= |events|
  {
    AllValid(History(events, n)) && HashFixesNumber(History(events, n))
  }

  lemma {:induction false} HashedConsistentlyStep(events: seq<Event>, n: nat)
    requires 0 < n <= |events| && HashedConsistently(events, n)
    ensures HashedConsistently(events, n - 1)
  {
    var h, h' := History(events, n - 1), History(events, n);
    assert forall i | 0 <= i < |h| :: h[i] == h'[i];
  }

  /** Main result: over any run of valid blocks, ticks included, the machine's latest block carries
      the highest number so far and its flag says whether the last block was below the highest. */
  lemma {:induction false} MachineTracksHistory(events: seq<Event>, n: nat)
    requires n <= |events| && HashedConsistently(events, n)
    ensures Tracks(ForkRun(events, n), History(events, n))
  {
    if n > 0 {
      HashedConsistentlyStep(events, n);
      MachineTracksHistory(events, n - 1);
      if events[n - 1].Received? {
        ReceiveTracks(ForkRun(events, n - 1), History(events, n - 1), events[n - 1].block);
      }
    }
  }

  lemma {:induction false} TraceExtends(h: seq<BlockData>, b: BlockData)
    ensures Trace(h + [b], |h| + 1)
            == Trace(h, |h|) + (if Opens(h + [b], |h|) then [ForkAt(h + [b], |h|)] else [])
  {
    TraceStable(h, b, |h|);
  }

  /** Main result: until the first tick the machine's list of forks is the trace. */
  lemma {:induction false} MachineRecordsTrace(events: seq<Event>, n: nat)
    requires n <= |events| && HashedConsistently(events, n)
    requires forall k | 0 <= k < n :: events[k].Received?
    ensures ForkRun(events, n).forks == Trace(History(events, n), |History(events, n)|)
  {
    if n > 0 {
      HashedConsistentlyStep(events, n);
      MachineRecordsTrace(events, n - 1);
      MachineTracksHistory(events, n - 1);
      var h, b := History(events, n - 1), events[n - 1].block;
      ReceiveFollowsTrace(ForkRun(events, n - 1), h, b);
      TraceExtends(h, b);
    }
  }

  ghost predicate AtHighest(events: seq<Event>, n: nat)
    requires n <= |events|
  {
    ForkRun(events, n).latest.number == HighestOf(History(events, n), |History(events, n)|)
  }

  /** Event `k` is a block above the latest one, under the latest one's hash. */
  ghost predicate SameHashAbove(events: seq<Event>, k: nat) {
    && k < |events| && events[k].Received?
    && events[k].block.number > ForkRun(events, k).latest.number
    && events[k].block.hash == ForkRun(events, k).latest.hash
  }

  lemma {:induction false} HighestOfSnoc(h: seq<BlockData>, b: BlockData)
    ensures HighestOf(h + [b], |h| + 1) == if b.number >= HighestOf(h, |h|) then b.number else HighestOf(h, |h|)
  {
    HighestStable(h, b, |h|);
  }

  lemma {:induction false} AtHighestStep(events: seq<Event>, n: nat)
    requires n < |events| && AtHighest(events, n)
    ensures AtHighest(events, n + 1) <==> !SameHashAbove(events, n)
  {
    if events[n].Received? {
      HighestOfSnoc(History(events, n), events[n].block);
    }
  }

  /** The hypothesis on hashes is exact: the latest block carries the highest number after every
      step if and only if no block above it arrives under its own hash. */
  lemma {:induction false} TracksHighestIff(events: seq<Event>, n: nat)
    requires n <= |events|
    ensures (forall k | 0 <= k <= n :: AtHighest(events, k))
            <==> (forall k | 0 <= k < n :: !SameHashAbove(events, k))
  {
    if n == 0 {
      assert AtHighest(events, 0);
    } else {
      TracksHighestIff(events, n - 1);
      if forall k | 0 <= k <= n - 1 :: AtHighest(events, k) {
        AtHighestStep(events, n - 1);
      }
    }
  }

  // ---------------------------------------------------------------- the list of forks

  /** Every fork spans upward, and the ends do not decrease along the trace. */
  lemma {:induction false} TraceSpansUpward(h: seq<BlockData>, n: nat)
    requires n <= |h|
    ensures forall i | 0 <= i < |Trace(h, n)| :: Trace(h, n)[i].begin <= Trace(h, n)[i].end <= HighestOf(h, n)
    ensures forall i, j | 0 <= i < j < |Trace(h, n)| :: Trace(h, n)[i].end <= Trace(h, n)[j].end
  {
    if n > 0 {
      TraceSpansUpward(h, n - 1);
      BelowIffUnderHighest(h, n - 1);
    }
  }

  /** With blocks in receive order, expiry times do not decrease along the trace. */
  lemma {:induction false} TraceExpiresInOrder(h: seq<BlockData>, n: nat)
    requires n <= |h| && TimeOrdered(h)
    ensures n == 0 ==> Trace(h, n) == []
    ensures n > 0 ==> forall i | 0 <= i < |Trace(h, n)| ::
                        Trace(h, n)[i].expiredAt <= h[n - 1].receivedTime + EXPIRED_INTERVAL
    ensures forall i, j | 0 <= i < j < |Trace(h, n)| :: Trace(h, n)[i].expiredAt <= Trace(h, n)[j].expiredAt
  {
    if n > 0 {
      TraceExpiresInOrder(h, n - 1);
      assert n > 1 ==> h[n - 2].receivedTime <= h[n - 1].receivedTime;
    }
  }

  /** A second fork opens only after a block at or above the end of the first has been seen since
      the first began; the opening block itself counts. */
  lemma {:induction false} ForksAreSeparated(h: seq<BlockData>, i: nat, k: nat)
    requires i < k && Opens(h, i) && Opens(h, k)
    ensures i <= k - 1 && h[k - 1].number >= ForkAt(h, i).end
  {
    var j :| 0 <= j < i && h[j].number == HighestOf(h, i);
    assert !(h[j].number > h[k - 1].number);
  }

  function UnexpiredForks(forks: seq<Fork>, now: int): seq<Fork> {
    if forks == [] then []
    else UnexpiredForks(forks[..|forks| - 1], now)
         + (if Expired(forks[|forks| - 1], now) then [] else [forks[|forks| - 1]])
  }

  lemma {:induction false} AllExpired(forks: seq<Fork>, now: int)
    ensures UnexpiredForks(forks, now) == [] <==> forall i | 0 <= i < |forks| :: Expired(forks[i], now)
    ensures |UnexpiredForks(forks, now)| <= |forks|
  {
    if forks != [] {
      AllExpired(forks[..|forks| - 1], now);
    }
  }

  lemma {:induction false} CleanupIsSuffix(forks: seq<Fork>, now: int)
    ensures IsSuffix(AfterLastExpired(forks, now), forks)
  {
    if forks != [] {
      CleanupIsSuffix(forks[..|forks| - 1], now);
      assert forks == forks[..|forks| - 1] + [forks[|forks| - 1]];
    }
  }

  ghost predicate ExpiredFirst(forks: seq<Fork>, now: int) {
    forall i, j | 0 <= i < j < |forks| && Expired(forks[j], now) :: Expired(forks[i], now)
  }

  /** The cleanup drops exactly the expired forks if and only if no live fork precedes an expired one. */
  lemma {:induction false} CleanupIsFilterIff(forks: seq<Fork>, now: int)
    ensures AfterLastExpired(forks, now) == UnexpiredForks(forks, now) <==> ExpiredFirst(forks, now)
  {
    if forks != [] {
      var init, last := forks[..|forks| - 1], forks[|forks| - 1];
      assert forall i | 0 <= i < |init| :: forks[i] == init[i];
      if Expired(last, now) {
        AllExpired(init, now);
        assert UnexpiredForks(forks, now) == UnexpiredForks(init, now);
      } else {
        CleanupIsFilterIff(init, now);
        assert ExpiredFirst(forks, now) <==> ExpiredFirst(init, now);
        SnocInjective(AfterLastExpired(init, now), UnexpiredForks(init, now), last);
      }
    }
  }

  lemma {:induction false} SnocInjective<T>(a: seq<T>, b: seq<T>, x: T)
    ensures a + [x] == b + [x] <==> a == b
  {
    assert (a + [x])[..|a + [x]| - 1] == a && (b + [x])[..|b + [x]| - 1] == b;
  }

  /** The forks that have opened and have not been found expired by a later tick. */
  ghost function Kept(events: seq<Event>, n: nat): seq<Fork>
    requires n <= |events|
  {
    if n == 0 then []
    else
      var h := History(events, n);
      match events[n - 1]
      case Received(b) => Kept(events, n - 1) + (if Opens(h, |h| - 1) then [ForkAt(h, |h| - 1)] else [])
      case Tick(now) => UnexpiredForks(Kept(events, n - 1), now)
  }

  lemma {:induction false} SuffixGrows<T>(l: seq<T>, h: seq<T>, x: seq<T>)
    requires IsSuffix(l, h)
    ensures IsSuffix(l + x, h + x)
  {
    assert (h + x)[|h| - |l|..] == h[|h| - |l|..] + x;
  }

  lemma {:induction false} SuffixTransitive<T>(k: seq<T>, l: seq<T>, h: seq<T>)
    requires IsSuffix(k, l) && IsSuffix(l, h)
    ensures IsSuffix(k, h)
  {
    assert h[|h| - |k|..] == l[|l| - |k|..];
  }

  lemma {:induction false} ReceiveKeepsSuffix(s: ForkState, h: seq<BlockData>, b: BlockData)
    requires Tracks(s, h) && AllValid(h + [b]) && HashFixesNumber(h + [b])
    requires IsSuffix(s.forks, Trace(h, |h|))
    ensures IsSuffix(Receive(s, b).forks, Trace(h + [b], |h| + 1))
  {
    ReceiveFollowsTrace(s, h, b);
    TraceExtends(h, b);
    SuffixGrows(s.forks, Trace(h, |h|), if Opens(h + [b], |h|) then [ForkAt(h + [b], |h|)] else []);
  }

  lemma {:induction false} TickKeepsSuffix(forks: seq<Fork>, all: seq<Fork>, now: int)
    requires IsSuffix(forks, all)
    ensures IsSuffix(AfterLastExpired(forks, now), all)
  {
    CleanupIsSuffix(forks, now);
    SuffixTransitive(AfterLastExpired(forks, now), forks, all);
  }

  ghost predicate RecentForks(events: seq<Event>, n: nat)
    requires n <= |events|
  {
    IsSuffix(ForkRun(events, n).forks, Trace(History(events, n), |History(events, n)|))
  }

  lemma {:induction false} RecentAfterReceived(events: seq<Event>, n: nat)
    requires n < |events| && events[n].Received? && HashedConsistently(events, n + 1) && RecentForks(events, n)
    ensures RecentForks(events, n + 1)
  {
    HashedConsistentlyStep(events, n + 1);
    MachineTracksHistory(events, n);
    ReceiveKeepsSuffix(ForkRun(events, n), History(events, n), events[n].block);
  }

  lemma {:induction false} RecentAfterTick(events: seq<Event>, n: nat)
    requires n < |events| && events[n].Tick? && RecentForks(events, n)
    ensures RecentForks(events, n + 1)
  {
    var h := History(events, n);
    TickKeepsSuffix(ForkRun(events, n).forks, Trace(h, |h|), events[n].now);
  }

  /** Over any run of valid blocks with ticks anywhere, the list is a suffix of all forks that
      have opened. */
  lemma {:induction false} ForksAreRecent(events: seq<Event>, n: nat)
    requires n <= |events| && HashedConsistently(events, n)
    ensures IsSuffix(ForkRun(events, n).forks, Trace(History(events, n), |History(events, n)|))
  {
    if n > 0 {
      HashedConsistentlyStep(events, n);
      ForksAreRecent(events, n - 1);
      assert RecentForks(events, n - 1);
      if events[n - 1].Received? {
        RecentAfterReceived(events, n - 1);
      } else {
        RecentAfterTick(events, n - 1);
      }
      assert RecentForks(events, n);
    }
  }

  lemma {:induction false} SortedTail(l: seq<Fork>, h: seq<BlockData>)
    requires TimeOrdered(h) && IsSuffix(l, Trace(h, |h|))
    ensures forall i, j | 0 <= i < j < |l| :: l[i].expiredAt <= l[j].expiredAt
  {
    TraceExpiresInOrder(h, |h|);
    var t := Trace(h, |h|);
    forall i, j | 0 <= i < j < |l| ensures l[i].expiredAt <= l[j].expiredAt {
      assert l[i] == t[|t| - |l| + i] && l[j] == t[|t| - |l| + j];
    }
  }

  /** With blocks in receive order, a tick drops exactly the expired forks. */
  lemma {:induction false} TickDropsExpired(events: seq<Event>, n: nat, now: int)
    requires n <= |events| && HashedConsistently(events, n) && TimeOrdered(History(events, n))
    ensures AfterLastExpired(ForkRun(events, n).forks, now) == UnexpiredForks(ForkRun(events, n).forks, now)
  {
    ForksAreRecent(events, n);
    SortedTail(ForkRun(events, n).forks, History(events, n));
    CleanupIsFilterIff(ForkRun(events, n).forks, now);
  }

  lemma {:induction false} KeptGrows(events: seq<Event>, n: nat)
    requires n < |events| && HashedConsistently(events, n + 1) && events[n].Received?
    requires ForkRun(events, n).forks == Kept(events, n)
    ensures ForkRun(events, n + 1).forks == Kept(events, n + 1)
  {
    HashedConsistentlyStep(events, n + 1);
    MachineTracksHistory(events, n);
    ReceiveFollowsTrace(ForkRun(events, n), History(events, n), events[n].block);
  }

  /** Main result: with blocks in receive order, the list holds exactly the forks that have opened
      and that no later tick has found expired. */
  lemma {:induction false} ForkListIsExact(events: seq<Event>, n: nat)
    requires n <= |events| && HashedConsistently(events, n) && TimeOrdered(History(events, n))
    ensures ForkRun(events, n).forks == Kept(events, n)
  {
    if n > 0 {
      HashedConsistentlyStep(events, n);
      HistoryStep(events, n);
      ForkListIsExact(events, n - 1);
      match events[n - 1]
      case Received(_) => KeptGrows(events, n - 1);
      case Tick(now) => TickDropsExpired(events, n - 1, now);
    }
  }

  /** Two forks, the second received with an earlier time than the first, and a tick. */
  function DisorderedForks(late: int, early: int, now: int): seq<Event> {
    var top, low := BlockData("a", 5, late, late), BlockData("b", 4, late, late);
    [Received(top), Received(low), Received(top), Received(low.(receivedTime := early)), Tick(now)]
  }

  lemma {:induction false} DisorderedForksAreConsistent(late: int, early: int, now: int)
    ensures HashedConsistently(DisorderedForks(late, early, now), 5)
  {
    var events := DisorderedForks(late, early, now);
    assert History(events, 2) == [events[0].block, events[1].block];
    assert History(events, 4) == [events[0].block, events[1].block, events[2].block, events[3].block];
    assert History(events, 5) == History(events, 4);
  }

  lemma {:induction false} ForkRunStep(events: seq<Event>, n: nat)
    requires 0 < n <= |events|
    ensures ForkRun(events, n) == DetectorAfter(ForkRun(events, n - 1), events[n - 1])
  {
  }

  /** The shortest run that loses a live fork: only the second fork has expired at the tick. */
  lemma {:induction false} LiveForkLost(late: int, early: int, now: int)
    requires early + EXPIRED_INTERVAL < now <= late + EXPIRED_INTERVAL
    ensures var events := DisorderedForks(late, early, now);
            && ForkRun(events, 4).forks
               == [Fork(4, 5, late + EXPIRED_INTERVAL), Fork(4, 5, early + EXPIRED_INTERVAL)]
            && !Expired(ForkRun(events, 4).forks[0], now)
            && ForkRun(events, 5).forks == []
  {
    var events := DisorderedForks(late, early, now);
    var top := events[0].block;
    var first, second := Fork(4, 5, late + EXPIRED_INTERVAL), Fork(4, 5, early + EXPIRED_INTERVAL);
    assert ForkRun(events, 0) == ForkState(NO_BLOCK, false, []);
    ForkRunStep(events, 1);
    assert ForkRun(events, 1) == ForkState(top, false, []);
    ForkRunStep(events, 2);
    assert ForkRun(events, 2) == ForkState(top, true, [first]);
    ForkRunStep(events, 3);
    assert ForkRun(events, 3) == ForkState(top, false, [first]);
    ForkRunStep(events, 4);
    assert ForkRun(events, 4) == ForkState(top, true, [first, second]);
    ForkRunStep(events, 5);
  }

  /** When no block carries a hash, as the receiver hands them over, no fork is ever recorded. */
  lemma {:induction false} UnhashedBlocksHideForks(events: seq<Event>, n: nat)
    requires n <= |events|
    requires forall k | 0 <= k < n && events[k].Received? :: events[k].block.hash == ""
    ensures ForkRun(events, n) == ForkState(NO_BLOCK, false, [])
  {
    if n > 0 {
      UnhashedBlocksHideForks(events, n - 1);
    }
  }
}
