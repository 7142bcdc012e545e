/** The 100-slot ring of the block recorder, and the list of recent blocks it stands for. */
module BlockRing {
  import opened Clock
  import opened Block

  datatype Ring = Ring(slots: seq<BlockData>, id: nat)

  function Blanks(n: nat): (s: seq<BlockData>)
    ensures |s| == n && forall i | 0 <= i < n :: s[i] == NO_BLOCK
  {
    seq(n, _ => NO_BLOCK)
  }

  function EmptyRing(): Ring {
    Ring(Blanks(DATA_LENGTH), 0)
  }

  ghost predicate Full(slots: seq<BlockData>) {
    forall i | 0 <= i < |slots| :: !IsEmpty(slots[i])
  }

  ghost predicate Prefix(slots: seq<BlockData>, n: nat) {
    && n <= |slots|
    && (forall i | 0 <= i < n :: !IsEmpty(slots[i]))
    && (forall i | n <= i < |slots| :: slots[i] == NO_BLOCK)
  }

  /** The write position is a slot, and the occupied slots are those before it or all of them. */
  ghost predicate WellFormed(r: Ring) {
    && |r.slots| == DATA_LENGTH
    && r.id < DATA_LENGTH
    && (Full(r.slots) || Prefix(r.slots, r.id))
  }

  /** The blocks in the ring, oldest first. */
  ghost function Recency(r: Ring): seq<BlockData>
    requires WellFormed(r)
  {
    if Full(r.slots) then r.slots[r.id..] + r.slots[..r.id] else r.slots[..r.id]
  }

  // ---------------------------------------------------------------- adding a block

  function NextId(id: nat): nat {
    if id == DATA_LENGTH - 1 then 0 else id + 1
  }

  /** `addBlock`; `None` is the index-out-of-range panic. */
  function Put(r: Ring, b: BlockData): Option<Ring>
    requires |r.slots| == DATA_LENGTH
  {
    if r.id < DATA_LENGTH then Some(Ring(r.slots[r.id := b], NextId(r.id))) else None
  }

  /** What adding a block does to the list of recent blocks: the oldest goes when there are 100. */
  function Push(l: seq<BlockData>, b: BlockData): seq<BlockData> {
    (if |l| < DATA_LENGTH then l else l[1..]) + [b]
  }

  lemma {:induction false} Rotate(s: seq<BlockData>, i: nat, b: BlockData)
    requires i < |s|
    ensures s[i := b][i + 1..] + s[i := b][..i + 1] == (s[i..] + s[..i])[1..] + [b]
  {
    assert s[i := b][..i + 1] == s[..i] + [b];
    assert s[i..] == [s[i]] + s[i + 1..];
  }

  lemma {:induction false} PutPushesFull(r: Ring, b: BlockData)
    requires WellFormed(r) && Full(r.slots) && !IsEmpty(b)
    ensures WellFormed(Put(r, b).value) && Recency(Put(r, b).value) == Push(Recency(r), b)
  {
    var s' := r.slots[r.id := b];
    assert Full(s');
    Rotate(r.slots, r.id, b);
    if r.id == DATA_LENGTH - 1 {
      assert s'[DATA_LENGTH..] == [] && s'[..DATA_LENGTH] == s' && s'[0..] == s' && s'[..0] == [];
    }
  }

  lemma {:induction false} PutPushesPrefix(r: Ring, b: BlockData)
    requires WellFormed(r) && !Full(r.slots) && !IsEmpty(b)
    ensures WellFormed(Put(r, b).value) && Recency(Put(r, b).value) == Push(Recency(r), b)
  {
    var s' := r.slots[r.id := b];
    assert Prefix(s', r.id + 1);
    assert s'[..r.id + 1] == r.slots[..r.id] + [b];
    if r.id == DATA_LENGTH - 1 {
      assert Full(s');
      assert s'[..r.id + 1] == s' && s'[0..] == s' && s'[..0] == [];
    } else {
      assert IsEmpty(s'[r.id + 1]);
    }
  }

  /** `addBlock` on the ring is a push on the list of recent blocks. */
  lemma {:induction false} PutPushes(r: Ring, b: BlockData)
    requires WellFormed(r) && !IsEmpty(b)
    ensures Put(r, b).Some? && WellFormed(Put(r, b).value)
    ensures Recency(Put(r, b).value) == Push(Recency(r), b)
  {
    if Full(r.slots) {
      PutPushesFull(r, b);
    } else {
      PutPushesPrefix(r, b);
    }
  }

  // ---------------------------------------------------------------- expiry

  predicate Live(b: BlockData, now: int) {
    b.receivedTime > now - EXPIRED_INTERVAL
  }

  /** Slot `i` is reached by the scan (every slot up to it holds a number and a hash) and its block is
      less than two hours old. */
  ghost predicate LiveAt(slots: seq<BlockData>, i: nat, now: int) {
    && i < |slots| && now - slots[i].receivedTime < 7_200_000_000_000
    && forall j | 0 <= j <= i :: slots[j].number > 0 && slots[j].hash != ""
  }

  /** `lo` and `hi` are the first and the last live slot below `n`. */
  ghost predicate LiveSpan(slots: seq<BlockData>, n: nat, now: int, lo: nat, hi: nat) {
    && lo <= hi < n
    && LiveAt(slots, lo, now) && LiveAt(slots, hi, now)
    && forall i: nat | i < n && LiveAt(slots, i, now) :: lo <= i <= hi
  }

  ghost predicate NoneLive(slots: seq<BlockData>, n: nat, now: int) {
    forall i: nat | i < n :: !LiveAt(slots, i, now)
  }

  /** The ring cannot be cut into one run of live slots: it is full, and its first and its last block
      are both less than two hours old. */
  ghost predicate SplitLive(slots: seq<BlockData>, now: int)
    requires |slots| == DATA_LENGTH
  {
    && Full(slots)
    && now - slots[0].receivedTime < 7_200_000_000_000
    && now - slots[DATA_LENGTH - 1].receivedTime < 7_200_000_000_000
  }

  lemma {:induction false} SplitLiveIff(slots: seq<BlockData>, now: int)
    requires |slots| == DATA_LENGTH
    ensures SplitLive(slots, now) <==> LiveAt(slots, 0, now) && LiveAt(slots, DATA_LENGTH - 1, now)
  {
  }

  lemma {:induction false} LiveSpanExists(slots: seq<BlockData>, n: nat, now: int)
    requires n <= |slots|
    ensures NoneLive(slots, n, now) || exists lo, hi :: LiveSpan(slots, n, now, lo, hi)
  {
    if n > 0 {
      LiveSpanExists(slots, n - 1, now);
      if LiveAt(slots, n - 1, now) {
        if NoneLive(slots, n - 1, now) {
          assert LiveSpan(slots, n, now, n - 1, n - 1);
        } else {
          var lo: nat, hi: nat :| LiveSpan(slots, n - 1, now, lo, hi);
          assert LiveSpan(slots, n, now, lo, n - 1);
        }
      } else if !NoneLive(slots, n - 1, now) {
        var lo: nat, hi: nat :| LiveSpan(slots, n - 1, now, lo, hi);
        assert LiveSpan(slots, n, now, lo, hi);
      }
    }
  }

  /** Slots `lo` to `hi` moved to the front, blanks behind them. */
  function Compacted(slots: seq<BlockData>, lo: nat, hi: nat): Ring
    requires lo <= hi < |slots| == DATA_LENGTH
  {
    Ring(slots[lo..hi + 1] + Blanks(DATA_LENGTH - (hi + 1 - lo)), hi + 1 - lo)
  }

  /** `cleanupExpiredBlocks`: keep everything from the first to the last live slot. */
  ghost function Cleanup(r: Ring, now: int): (r': Ring)
    requires |r.slots| == DATA_LENGTH
    ensures NoneLive(r.slots, DATA_LENGTH, now) ==> r' == r
    ensures forall lo, hi | LiveSpan(r.slots, DATA_LENGTH, now, lo, hi) :: r' == Compacted(r.slots, lo, hi)
  {
    if NoneLive(r.slots, DATA_LENGTH, now) then r
    else
      LiveSpanExists(r.slots, DATA_LENGTH, now);
      var lo: nat, hi: nat :| LiveSpan(r.slots, DATA_LENGTH, now, lo, hi);
      Compacted(r.slots, lo, hi)
  }

  /** The slots from the first to the last live one are at the front, in order, with the write position
      behind them and nothing in the slots after it. */
  ghost predicate MovesSpan(slots: seq<BlockData>, r: Ring, now: int) {
    forall lo: nat, hi: nat | LiveSpan(slots, 100, now, lo, hi) ::
      && r.id == hi + 1 - lo && |r.slots| == 100
      && (forall k | 0 <= k < r.id :: r.slots[k] == slots[lo + k])
      && (forall k | r.id <= k < 100 :: r.slots[k] == BlockData("", 0, 0, 0))
  }

  /** For any contents of the slots: what a cleanup moves, and that it does nothing when no slot is live. */
  lemma {:induction false} CleanupMovesSpan(r: Ring, now: int)
    requires |r.slots| == DATA_LENGTH
    ensures (forall i: nat :: !LiveAt(r.slots, i, now)) ==> Cleanup(r, now) == r
    ensures MovesSpan(r.slots, Cleanup(r, now), now)
  {
  }

  /** The blocks of `l` less than two hours old, in order. */
  function Unexpired(l: seq<BlockData>, now: int): seq<BlockData> {
    if l == [] then []
    else (if now - l[0].receivedTime < 7_200_000_000_000 then [l[0]] else []) + Unexpired(l[1..], now)
  }

  /** What a cleanup should do to the list of recent blocks. */
  function CleanList(l: seq<BlockData>, now: int): seq<BlockData> {
    if Unexpired(l, now) == [] then l else Unexpired(l, now)
  }

  lemma {:induction false} UnexpiredIsTail(l: seq<BlockData>, now: int, k: nat)
    requires k <= |l|
    requires forall i | 0 <= i < |l| :: Live(l[i], now) <==> k <= i
    ensures Unexpired(l, now) == l[k..]
  {
    if l != [] {
      UnexpiredIsTail(l[1..], now, if k == 0 then 0 else k - 1);
    }
  }

  lemma {:induction false} UnexpiredNone(l: seq<BlockData>, now: int)
    requires forall i | 0 <= i < |l| :: !Live(l[i], now)
    ensures Unexpired(l, now) == []
  {
    UnexpiredIsTail(l, now, |l|);
  }

  lemma {:induction false} NoneUnexpired(r: Ring, now: int)
    requires WellFormed(r) && NoneLive(r.slots, DATA_LENGTH, now)
    ensures Unexpired(Recency(r), now) == []
  {
    var l := Recency(r);
    forall i | 0 <= i < |l| ensures !Live(l[i], now) {
      SlotOf(r, i);
      assert !LiveAt(r.slots, SlotIndex(r, Full(r.slots), i), now);
    }
    UnexpiredNone(l, now);
  }

  lemma {:induction false} CleanupCleansList(r: Ring, now: int)
    requires WellFormed(r) && TimeOrdered(Recency(r)) && !SplitLive(r.slots, now)
    ensures WellFormed(Cleanup(r, now))
    ensures Recency(Cleanup(r, now)) == CleanList(Recency(r), now)
  {
    var l := Recency(r);
    if NoneLive(r.slots, DATA_LENGTH, now) {
      NoneUnexpired(r, now);
    } else {
      LiveSpanExists(r.slots, DATA_LENGTH, now);
      var lo: nat, hi: nat :| LiveSpan(r.slots, DATA_LENGTH, now, lo, hi);
      LiveSpanIsTail(r, now, lo, hi);
      UnexpiredIsTail(l, now, |l| - (hi + 1 - lo));
      CompactedIsPrefix(r.slots, lo, hi);
    }
  }

  /** What a cleanup leaves of the list `l` is the suffix of the blocks less than two hours old, or all
      of `l` when there is none. */
  ghost predicate KeepsYoung(l: seq<BlockData>, l': seq<BlockData>, now: int) {
    exists k: nat :: YoungFrom(l, now, k) && l' == if k == |l| then l else l[k..]
  }

  /** Exactly the blocks from position `k` on are less than two hours old. */
  ghost predicate YoungFrom(l: seq<BlockData>, now: int, k: nat) {
    k <= |l| && forall i | 0 <= i < |l| :: now - l[i].receivedTime < 7_200_000_000_000 <==> k <= i
  }

  lemma {:induction false} CleanListKeepsYoung(l: seq<BlockData>, now: int)
    requires TimeOrdered(l)
    ensures KeepsYoung(l, CleanList(l, now), now)
  {
    var k := FirstLive(l, now);
    UnexpiredIsTail(l, now, k);
    assert YoungFrom(l, now, k);
  }

  /** On a ring in receive order whose live slots are not split, a cleanup keeps exactly the blocks
      less than two hours old (or everything, when there is none) and leaves the write position inside
      the array. */
  lemma {:induction false} CleanupFilters(r: Ring, now: int)
    requires WellFormed(r) && TimeOrdered(Recency(r)) && !SplitLive(r.slots, now)
    ensures WellFormed(Cleanup(r, now))
    ensures Recency(Cleanup(r, now)) == CleanList(Recency(r), now)
    ensures KeepsYoung(Recency(r), Recency(Cleanup(r, now)), now)
  {
    CleanupCleansList(r, now);
    CleanListKeepsYoung(Recency(r), now);
  }

  /** The slot that holds the `i`-th oldest block. */
  function SlotIndex(r: Ring, full: bool, i: nat): int {
    if !full then i else if r.id + i < DATA_LENGTH then r.id + i else r.id + i - DATA_LENGTH
  }

  lemma {:induction false} SlotOf(r: Ring, i: nat)
    requires WellFormed(r) && i < |Recency(r)|
    ensures 0 <= SlotIndex(r, Full(r.slots), i) < DATA_LENGTH
    ensures Recency(r)[i] == r.slots[SlotIndex(r, Full(r.slots), i)]
    ensures forall j | 0 <= j <= SlotIndex(r, Full(r.slots), i) :: !IsEmpty(r.slots[j])
  {
  }

  lemma {:induction false} CompactedIsPrefix(slots: seq<BlockData>, lo: nat, hi: nat)
    requires lo <= hi < |slots| == DATA_LENGTH && hi + 1 - lo < DATA_LENGTH
    requires forall i | lo <= i <= hi :: !IsEmpty(slots[i])
    ensures WellFormed(Compacted(slots, lo, hi))
    ensures Recency(Compacted(slots, lo, hi)) == slots[lo..hi + 1]
  {
    var c := Compacted(slots, lo, hi);
    assert IsEmpty(c.slots[c.id]);
    assert Prefix(c.slots, c.id);
  }

  /** In receive order, a live slot makes every newer slot live. */
  lemma {:induction false} LiveUpward(r: Ring, now: int, i: nat, j: nat)
    requires WellFormed(r) && TimeOrdered(Recency(r)) && i <= j < |Recency(r)|
    requires LiveAt(r.slots, SlotIndex(r, Full(r.slots), i), now)
    ensures LiveAt(r.slots, SlotIndex(r, Full(r.slots), j), now)
  {
    SlotOf(r, i);
    SlotOf(r, j);
  }

  /** The last live slot is the newest one, just before the write position. */
  lemma {:induction false} LastLiveIsNewest(r: Ring, now: int, lo: nat, hi: nat)
    requires WellFormed(r) && TimeOrdered(Recency(r)) && !SplitLive(r.slots, now)
    requires LiveSpan(r.slots, DATA_LENGTH, now, lo, hi)
    ensures if hi == DATA_LENGTH - 1 then r.id == 0 && Full(r.slots) && lo > 0 else hi + 1 == r.id
  {
    var n := |Recency(r)|;
    SplitLiveIff(r.slots, now);
    if Full(r.slots) {
      if hi >= r.id {
        LiveUpward(r, now, hi - r.id, DATA_LENGTH - 1 - r.id);
        if r.id > 0 {
          LiveUpward(r, now, hi - r.id, DATA_LENGTH - r.id);
          assert false;
        }
      } else {
        LiveUpward(r, now, DATA_LENGTH - r.id + hi, DATA_LENGTH - 1);
      }
    } else {
      assert hi < r.id;
      LiveUpward(r, now, hi, r.id - 1);
    }
  }

  /** The slots from `lo` to the newest one are the newest blocks. */
  lemma {:induction false} NewestSlots(r: Ring, lo: nat, hi: nat)
    requires WellFormed(r) && lo <= hi < DATA_LENGTH
    requires if hi == DATA_LENGTH - 1 then r.id == 0 && Full(r.slots) else hi + 1 == r.id
    ensures hi + 1 - lo <= |Recency(r)|
    ensures r.slots[lo..hi + 1] == Recency(r)[|Recency(r)| - (hi + 1 - lo)..]
    ensures forall i | 0 <= i < |Recency(r)| ::
              |Recency(r)| - (hi + 1 - lo) <= i <==> lo <= SlotIndex(r, Full(r.slots), i) <= hi
  {
    var kept, k := r.slots[lo..hi + 1], |Recency(r)| - (hi + 1 - lo);
    var tail := Recency(r)[k..];
    forall i | 0 <= i < |kept| ensures kept[i] == tail[i] {
      SlotOf(r, k + i);
    }
  }

  /** In receive order, the live slots are the newest blocks. */
  lemma {:induction false} LiveSpanIsTail(r: Ring, now: int, lo: nat, hi: nat)
    requires WellFormed(r) && TimeOrdered(Recency(r)) && !SplitLive(r.slots, now)
    requires LiveSpan(r.slots, DATA_LENGTH, now, lo, hi)
    ensures hi + 1 - lo < DATA_LENGTH && hi + 1 - lo <= |Recency(r)|
    ensures forall i | lo <= i <= hi :: !IsEmpty(r.slots[i])
    ensures r.slots[lo..hi + 1] == Recency(r)[|Recency(r)| - (hi + 1 - lo)..]
    ensures forall i | 0 <= i < |Recency(r)| ::
              Live(Recency(r)[i], now) <==> |Recency(r)| - (hi + 1 - lo) <= i
  {
    LastLiveIsNewest(r, now, lo, hi);
    SplitLiveIff(r.slots, now);
    NewestSlots(r, lo, hi);
    var l, full, k := Recency(r), Full(r.slots), |Recency(r)| - (hi + 1 - lo);
    SlotOf(r, k);
    assert SlotIndex(r, full, k) == lo;
    forall i | 0 <= i < |l| ensures Live(l[i], now) <==> k <= i {
      SlotOf(r, i);
      assert Live(l[i], now) ==> LiveAt(r.slots, SlotIndex(r, full, i), now);
      assert k < i ==> l[k].receivedTime <= l[i].receivedTime;
    }
  }

  /** What a cleanup does to the write position, for any contents. */
  lemma {:induction false} CleanupPosition(r: Ring, now: int)
    requires |r.slots| == DATA_LENGTH
    ensures SplitLive(r.slots, now) ==> Cleanup(r, now) == Ring(r.slots, DATA_LENGTH)
    ensures !SplitLive(r.slots, now) && !NoneLive(r.slots, DATA_LENGTH, now) ==> Cleanup(r, now).id < DATA_LENGTH
  {
    SplitLiveIff(r.slots, now);
    if !NoneLive(r.slots, DATA_LENGTH, now) {
      LiveSpanExists(r.slots, DATA_LENGTH, now);
      var lo: nat, hi: nat :| LiveSpan(r.slots, DATA_LENGTH, now, lo, hi);
      assert SplitLive(r.slots, now) <==> lo == 0 && hi == DATA_LENGTH - 1;
      assert r.slots[0..DATA_LENGTH] + Blanks(0) == r.slots;
    }
  }

  /** The side condition is exact: for any contents, the cleanup leaves a write position the next
      block can use precisely when the live slots are not split; otherwise that block panics. */
  lemma {:induction false} CleanupOverflowsIffSplit(r: Ring, now: int, b: BlockData)
    requires |r.slots| == DATA_LENGTH && r.id < DATA_LENGTH
    ensures Put(Cleanup(r, now), b).None? <==> SplitLive(r.slots, now)
  {
    CleanupPosition(r, now);
  }

  // ---------------------------------------------------------------- whole runs

  /** The ring after one event; `None` when it panics. */
  ghost function RingAfter(r: Ring, e: Event): (r': Option<Ring>)
    requires |r.slots| == DATA_LENGTH
    ensures r'.Some? ==> |r'.value.slots| == DATA_LENGTH
  {
    match e
    case Received(b) => Put(r, b)
    case Tick(now) => Some(Cleanup(r, now))
  }

  /** The ring after the first `n` events; `None` once an Add has panicked. */
  ghost function Run(events: seq<Event>, n: nat): (r: Option<Ring>)
    requires n <= |events|
    ensures r.Some? ==> |r.value.slots| == DATA_LENGTH
  {
    if n == 0 then Some(EmptyRing())
    else
      match Run(events, n - 1)
      case None => None
      case Some(r) => RingAfter(r, events[n - 1])
  }

  /** The list of recent blocks after the first `n` events. */
  function ListRun(events: seq<Event>, n: nat): seq<BlockData>
    requires n <= |events|
  {
    if n == 0 then []
    else
      match events[n - 1]
      case Received(b) => Push(ListRun(events, n - 1), b)
      case Tick(now) => CleanList(ListRun(events, n - 1), now)
  }

  /** No tick among the first `n` events finds both the first and the last slot live. */
  ghost predicate NeverSplit(events: seq<Event>, n: nat)
    requires n <= |events|
  {
    forall k | 0 <= k < n && events[k].Tick? ::
      Run(events, k).Some? ==> !SplitLive(Run(events, k).value.slots, events[k].now)
  }

  /** Every tick among the first `n` events finds the history so far in receive order. */
  ghost predicate OrderedAtTicks(events: seq<Event>, n: nat)
    requires n <= |events|
  {
    forall k | 0 <= k < n && events[k].Tick? :: TimeOrdered(History(events, k))
  }

  /** The ring `r` holds the list `l`, which is the newest part of the history `h`. */
  ghost predicate Represents(r: Ring, l: seq<BlockData>, h: seq<BlockData>) {
    WellFormed(r) && Recency(r) == l && IsSuffix(l, h)
  }

  lemma {:induction false} AddStep(r: Ring, l: seq<BlockData>, h: seq<BlockData>, b: BlockData)
    requires Represents(r, l, h) && !IsEmpty(b)
    ensures Put(r, b).Some? && Represents(Put(r, b).value, Push(l, b), h + [b])
  {
    PutPushes(r, b);
  }

  lemma {:induction false} TickStep(r: Ring, l: seq<BlockData>, h: seq<BlockData>, now: int)
    requires Represents(r, l, h) && TimeOrdered(h) && !SplitLive(r.slots, now)
    ensures Represents(Cleanup(r, now), CleanList(l, now), h)
  {
    CleanupFilters(r, now);
    CleanListIsSuffix(l, now);
    var c := CleanList(l, now);
    assert h[|h| - |c|..] == l[|l| - |c|..];
  }

  /** A history in receive order is in receive order at every tick. */
  lemma {:induction false} OrderedHistory(events: seq<Event>, n: nat)
    requires n <= |events| && TimeOrdered(History(events, n))
    ensures OrderedAtTicks(events, n)
  {
    forall k | 0 <= k < n ensures TimeOrdered(History(events, k)) {
      HistoryPrefix(events, k, n);
    }
  }

  /** Main result: over any run of valid blocks in receive order whose ticks never find the live
      slots split, the ring never panics and holds exactly the list of recent blocks. */
  lemma {:induction false} RingRefinesList(events: seq<Event>, n: nat)
    requires n <= |events|
    requires AllValid(History(events, n)) && OrderedAtTicks(events, n) && NeverSplit(events, n)
    ensures Run(events, n).Some?
    ensures Represents(Run(events, n).value, ListRun(events, n), History(events, n))
  {
    if n == 0 {
      assert IsEmpty(EmptyRing().slots[0]);
    } else {
      HistoryStep(events, n);
      RingRefinesList(events, n - 1);
      var r, l, h := Run(events, n - 1).value, ListRun(events, n - 1), History(events, n - 1);
      match events[n - 1]
      case Received(b) =>
        assert History(events, n)[|h|] == b;
        AddStep(r, l, h, b);
      case Tick(now) =>
        TickStep(r, l, h, now);
    }
  }

  /** The same for a history in receive order. */
  lemma {:induction false} OrderedRingRefinesList(events: seq<Event>, n: nat)
    requires n <= |events| && NeverSplit(events, n)
    requires AllValid(History(events, n)) && TimeOrdered(History(events, n))
    ensures Run(events, n).Some?
    ensures Represents(Run(events, n).value, ListRun(events, n), History(events, n))
  {
    OrderedHistory(events, n);
    RingRefinesList(events, n);
  }

  lemma {:induction false} CleanListIsSuffix(l: seq<BlockData>, now: int)
    requires TimeOrdered(l)
    ensures IsSuffix(CleanList(l, now), l)
  {
    var k := FirstLive(l, now);
    UnexpiredIsTail(l, now, k);
  }

  ghost function FirstLive(l: seq<BlockData>, now: int): (k: nat)
    requires TimeOrdered(l)
    ensures k <= |l| && forall i | 0 <= i < |l| :: Live(l[i], now) <==> k <= i
  {
    if l == [] then 0
    else if Live(l[0], now) then
      assert forall i | 0 <= i < |l| :: l[0].receivedTime <= l[i].receivedTime; 0
    else 1 + FirstLive(l[1..], now)
  }

  // ---------------------------------------------------------------- when a run panics

  /** Tick `k` finds the live slots split, and up to event `m` only ticks follow, none of which can
      cut the same slots: they find them split again, or none of them live. */
  ghost predicate Overflow(events: seq<Event>, k: nat, m: nat) {
    && k < m <= |events| && events[k].Tick? && Run(events, k).Some?
    && var slots := Run(events, k).value.slots;
       && SplitLive(slots, events[k].now)
       && forall i | k < i < m ::
            events[i].Tick? && (SplitLive(slots, events[i].now) || AllOld(slots, events[i].now))
  }

  /** Every block is at least two hours old. */
  ghost predicate AllOld(slots: seq<BlockData>, now: int) {
    forall j | 0 <= j < |slots| :: now - slots[j].receivedTime >= 7_200_000_000_000
  }

  lemma {:induction false} AllOldIff(slots: seq<BlockData>, now: int)
    requires |slots| == DATA_LENGTH && Full(slots)
    ensures AllOld(slots, now) <==> NoneLive(slots, DATA_LENGTH, now)
  {
    forall j: nat | j < DATA_LENGTH
      ensures LiveAt(slots, j, now) <==> now - slots[j].receivedTime < 7_200_000_000_000
    {
    }
  }

  lemma {:induction false} OverflowPersists(events: seq<Event>, k: nat, m: nat)
    requires Overflow(events, k, m)
    ensures Run(events, m) == Some(Ring(Run(events, k).value.slots, DATA_LENGTH))
  {
    if k + 1 < m {
      OverflowPersists(events, k, m - 1);
      AllOldIff(Run(events, k).value.slots, events[m - 1].now);
    }
    assert Run(events, m) == Some(Cleanup(Run(events, m - 1).value, events[m - 1].now));
    CleanupPosition(Run(events, m - 1).value, events[m - 1].now);
  }

  lemma {:induction false} OverflowExtends(events: seq<Event>, k: nat, m: nat)
    requires Overflow(events, k, m) && m < |events| && events[m].Tick?
    requires Run(events, m).Some? && NoneLive(Run(events, m).value.slots, DATA_LENGTH, events[m].now)
    ensures Overflow(events, k, m + 1)
  {
    OverflowPersists(events, k, m);
    AllOldIff(Run(events, k).value.slots, events[m].now);
  }

  /** A write position beyond the array always goes back to such a tick. */
  lemma {:induction false} OverflowOrigin(events: seq<Event>, m: nat) returns (k: nat)
    requires m <= |events| && Run(events, m).Some? && Run(events, m).value.id >= DATA_LENGTH
    ensures Overflow(events, k, m)
  {
    assert m > 0;
    var r, now := Run(events, m - 1).value, events[m - 1].now;
    CleanupPosition(r, now);
    if SplitLive(r.slots, now) {
      k := m - 1;
    } else {
      k := OverflowOrigin(events, m - 1);
      OverflowExtends(events, k, m - 1);
    }
  }

  /** Block `j` arrives while the overflow of tick `k` has not been undone. */
  ghost predicate PanicsAt(events: seq<Event>, k: nat, j: nat) {
    j < |events| && events[j].Received? && Overflow(events, k, j)
  }

  lemma {:induction false} PanicIsFinal(events: seq<Event>, m: nat, n: nat)
    requires m <= n <= |events| && Run(events, m).None?
    ensures Run(events, n).None?
  {
    if m < n {
      PanicIsFinal(events, m, n - 1);
    }
  }

  lemma {:induction false} PanicOrigin(events: seq<Event>, n: nat) returns (k: nat, j: nat)
    requires n <= |events| && Run(events, n).None?
    ensures j < n && PanicsAt(events, k, j)
  {
    if Run(events, n - 1).None? {
      k, j := PanicOrigin(events, n - 1);
    } else {
      j := n - 1;
      k := OverflowOrigin(events, j);
    }
  }

  /** Main result: any run whatsoever panics if and only if some tick finds slots 0 and 99 both
      live, and a block arrives before a later tick has undone it. */
  lemma {:induction false} PanicIff(events: seq<Event>, n: nat)
    requires n <= |events|
    ensures Run(events, n).None? <==> exists k: nat, j: nat :: j < n && PanicsAt(events, k, j)
  {
    if Run(events, n).None? {
      var k, j := PanicOrigin(events, n);
    }
    if k: nat, j: nat :| j < n && PanicsAt(events, k, j) {
      OverflowPersists(events, k, j);
      PanicIsFinal(events, j + 1, n);
    }
  }

  /** In particular, when a block follows every tick: some tick finds slots 0 and 99 both live. */
  lemma {:induction false} PanicIffSplit(events: seq<Event>, n: nat)
    requires n <= |events|
    requires forall k | 0 <= k < n && events[k].Tick? :: k + 1 < n && events[k + 1].Received?
    ensures Run(events, n).None? <==> !NeverSplit(events, n)
  {
    PanicIff(events, n);
    if !NeverSplit(events, n) {
      var k :| 0 <= k < n && events[k].Tick? && Run(events, k).Some?
               && SplitLive(Run(events, k).value.slots, events[k].now);
      assert PanicsAt(events, k, k + 1);
    }
  }

  /** The list of recent blocks is empty only before the first block, as a cleanup that finds none
      live changes nothing. */
  lemma {:induction false} ListRunEmptyIff(events: seq<Event>, n: nat)
    requires n <= |events|
    ensures ListRun(events, n) == [] <==> History(events, n) == []
  {
    if n > 0 {
      ListRunEmptyIff(events, n - 1);
    }
  }

  /** The write position after the first `n` events, read off the list of recent blocks. */
  function NextRun(events: seq<Event>, n: nat): nat
    requires n <= |events|
  {
    if n == 0 then 0
    else
      match events[n - 1]
      case Received(_) => NextId(NextRun(events, n - 1))
      case Tick(now) =>
        var live := Unexpired(ListRun(events, n - 1), now);
        if live == [] then NextRun(events, n - 1) else |live|
  }

  lemma {:induction false} CleanupNext(r: Ring, now: int)
    requires WellFormed(r) && TimeOrdered(Recency(r)) && !SplitLive(r.slots, now)
    ensures var live := Unexpired(Recency(r), now);
            Cleanup(r, now).id == if live == [] then r.id else |live|
  {
    var l := Recency(r);
    if NoneLive(r.slots, DATA_LENGTH, now) {
      NoneUnexpired(r, now);
    } else {
      LiveSpanExists(r.slots, DATA_LENGTH, now);
      var lo: nat, hi: nat :| LiveSpan(r.slots, DATA_LENGTH, now, lo, hi);
      LiveSpanIsTail(r, now, lo, hi);
      UnexpiredIsTail(l, now, |l| - (hi + 1 - lo));
    }
  }

  lemma {:induction false} TickWritesNext(events: seq<Event>, n: nat)
    requires n < |events| && events[n].Tick? && Run(events, n).Some?
    requires Represents(Run(events, n).value, ListRun(events, n), History(events, n))
    requires Run(events, n).value.id == NextRun(events, n)
    requires TimeOrdered(History(events, n)) && !SplitLive(Run(events, n).value.slots, events[n].now)
    ensures Run(events, n + 1).Some? && Run(events, n + 1).value.id == NextRun(events, n + 1)
  {
    ListInOrder(events, n);
    CleanupNext(Run(events, n).value, events[n].now);
  }

  lemma {:induction false} AddWritesNext(events: seq<Event>, n: nat)
    requires n < |events| && events[n].Received? && Run(events, n).Some?
    requires WellFormed(Run(events, n).value) && Run(events, n).value.id == NextRun(events, n)
    ensures Run(events, n + 1).Some? && Run(events, n + 1).value.id == NextRun(events, n + 1)
  {
  }

  /** Under the conditions of `RingRefinesList`, that is where the ring writes next. */
  lemma {:induction false} RingWritesNext(events: seq<Event>, n: nat)
    requires n <= |events|
    requires AllValid(History(events, n)) && OrderedAtTicks(events, n) && NeverSplit(events, n)
    ensures Run(events, n).Some? && Run(events, n).value.id == NextRun(events, n)
  {
    if n > 0 {
      HistoryStep(events, n);
      assert OrderedAtTicks(events, n - 1) && NeverSplit(events, n - 1);
      RingWritesNext(events, n - 1);
      RingRefinesList(events, n - 1);
      if events[n - 1].Tick? {
        assert TimeOrdered(History(events, n - 1));
        TickWritesNext(events, n - 1);
      } else {
        AddWritesNext(events, n - 1);
      }
    }
  }

  lemma {:induction false} ListInOrder(events: seq<Event>, n: nat)
    requires n <= |events| && TimeOrdered(History(events, n)) && IsSuffix(ListRun(events, n), History(events, n))
    ensures TimeOrdered(ListRun(events, n))
  {
    var l, h := ListRun(events, n), History(events, n);
    assert forall i | 0 <= i < |l| :: l[i] == h[|h| - |l| + i];
  }

  /** Without ticks the ring holds the last 100 blocks, or all of them when there are fewer. */
  lemma {:induction false} AddsKeepTheLast(events: seq<Event>, n: nat)
    requires n <= |events| && forall k | 0 <= k < n :: events[k].Received?
    ensures |History(events, n)| == n
    ensures ListRun(events, n) == History(events, n)[if n < 100 then 0 else n - 100..]
  {
    if n > 0 {
      AddsKeepTheLast(events, n - 1);
    }
  }

  /** Up to 100 blocks fill the slots in order. */
  lemma {:induction false} FillsInOrder(events: seq<Event>, n: nat)
    requires n <= |events| && n <= DATA_LENGTH && forall k | 0 <= k < n :: events[k].Received?
    ensures |History(events, n)| == n && Run(events, n).Some?
    ensures Run(events, n).value == Ring(History(events, n) + Blanks(DATA_LENGTH - n), if n < DATA_LENGTH then n else 0)
  {
    if n > 0 {
      FillsInOrder(events, n - 1);
      var slots, b := History(events, n - 1) + Blanks(DATA_LENGTH - (n - 1)), events[n - 1].block;
      assert slots[n - 1 := b] == (History(events, n - 1) + [b]) + Blanks(DATA_LENGTH - n);
    }
  }

  /** A hundred live blocks are enough: from the start, 100 valid blocks, a tick within two hours
      of all of them, and one more block make the recorder panic. */
  lemma {:induction false} BusyRunPanics(events: seq<Event>)
    requires |events| == 102 && events[100].Tick? && events[101].Received?
    requires forall k | 0 <= k < 100 :: events[k].Received? && !IsEmpty(events[k].block)
    requires forall k | 0 <= k < 100 :: events[100].now - events[k].block.receivedTime < 7_200_000_000_000
    ensures Run(events, 102).None?
  {
    FillsInOrder(events, 100);
    HistoryIsBlocks(events, 100);
    var r, now := Run(events, 100).value, events[100].now;
    assert r.slots == History(events, 100);
    assert SplitLive(r.slots, now);
    assert PanicsAt(events, 100, 101);
    PanicIff(events, 102);
  }

  lemma {:induction false} HistoryIsBlocks(events: seq<Event>, n: nat)
    requires n <= |events| && forall k | 0 <= k < n :: events[k].Received?
    ensures |History(events, n)| == n && forall i | 0 <= i < n :: History(events, n)[i] == events[i].block
  {
    if n > 0 {
      HistoryIsBlocks(events, n - 1);
    }
  }
}
