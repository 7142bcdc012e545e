/** The gap report: a scan for the lowest and the highest block number, a walk around the ring
    from one to the other, and the numbers that do not occur on the walk. */
module BlockGaps {
  import opened Block
  import opened BlockRing
  import opened Sets

  ghost function Numbers(s: seq<BlockData>): set<nat> {
    set b | b in s :: b.number
  }

  /** The numbers in `[lo, hi)` that are not in `present`, ascending. */
  ghost function Absent(present: set<nat>, lo: nat, hi: nat): seq<nat> {
    if hi <= lo then []
    else Absent(present, lo, hi - 1) + (if hi - 1 in present then [] else [hi - 1])
  }

  /** `Absent` is the ascending list of exactly the numbers that are not there. */
  lemma {:induction false} AbsentIsExact(present: set<nat>, lo: nat, hi: nat)
    ensures forall k | 0 <= k < |Absent(present, lo, hi)| ::
              lo <= Absent(present, lo, hi)[k] < hi && Absent(present, lo, hi)[k] !in present
    ensures forall x: nat | lo <= x < hi && x !in present :: x in Absent(present, lo, hi)
    ensures forall i, j | 0 <= i < j < |Absent(present, lo, hi)| ::
              Absent(present, lo, hi)[i] < Absent(present, lo, hi)[j]
  {
    if lo < hi {
      AbsentIsExact(present, lo, hi - 1);
      forall x: nat | lo <= x < hi && x !in present ensures x in Absent(present, lo, hi) {
        if x == hi - 1 {
          assert Absent(present, lo, hi)[|Absent(present, lo, hi)| - 1] == x;
        }
      }
    }
  }

  // ---------------------------------------------------------------- the scan and the walk

  /** How many slots the scan visits: up to the first empty one, slot 0 always included. */
  ghost function ScanEnd(slots: seq<BlockData>, n: nat): (e: nat)
    requires 1 <= n <= |slots|
    ensures n <= e <= |slots|
    ensures forall i | n <= i < e :: !IsEmpty(slots[i])
    ensures e < |slots| ==> IsEmpty(slots[e])
    decreases |slots| - n
  {
    if n == |slots| || IsEmpty(slots[n]) then n else ScanEnd(slots, n + 1)
  }

  ghost function Scanned(slots: seq<BlockData>): (s: seq<BlockData>)
    requires slots != []
    ensures 1 <= |s| <= |slots|
  {
    slots[..ScanEnd(slots, 1)]
  }

  ghost predicate FirstMin(s: seq<BlockData>, k: nat) {
    && k < |s|
    && (forall i | 0 <= i < |s| :: s[k].number <= s[i].number)
    && (forall i | 0 <= i < k :: s[k].number < s[i].number)
  }

  ghost predicate FirstMax(s: seq<BlockData>, k: nat) {
    && k < |s|
    && (forall i | 0 <= i < |s| :: s[i].number <= s[k].number)
    && (forall i | 0 <= i < k :: s[i].number < s[k].number)
  }

  lemma {:induction false} FirstExtremesExist(s: seq<BlockData>, n: nat) returns (min: nat, max: nat)
    requires 0 < n <= |s|
    ensures FirstMin(s[..n], min) && FirstMax(s[..n], max)
  {
    if n == 1 {
      min, max := 0, 0;
    } else {
      min, max := FirstExtremesExist(s, n - 1);
      assert forall i | 0 <= i < n - 1 :: s[..n][i] == s[..n - 1][i];
      min := if s[n - 1].number < s[min].number then n - 1 else min;
      max := if s[max].number < s[n - 1].number then n - 1 else max;
    }
  }

  lemma {:induction false} FirstExtremes(s: seq<BlockData>)
    requires s != []
    ensures (exists k: nat :: FirstMin(s, k)) && (exists k: nat :: FirstMax(s, k))
  {
    var min, max := FirstExtremesExist(s, |s|);
    assert s[..|s|] == s;
  }

  ghost function MinIndex(s: seq<BlockData>): (k: nat)
    requires s != []
    ensures FirstMin(s, k)
  {
    FirstExtremes(s);
    var k: nat :| FirstMin(s, k);
    k
  }

  ghost function MaxIndex(s: seq<BlockData>): (k: nat)
    requires s != []
    ensures FirstMax(s, k)
  {
    FirstExtremes(s);
    var k: nat :| FirstMax(s, k);
    k
  }

  /** `sortArray`: the slots from `start` to `end`, around the end of the array if need be. */
  function Walk(slots: seq<BlockData>, start: nat, end: nat): seq<BlockData>
    requires start < |slots| && end < |slots|
  {
    if start <= end then slots[start..end + 1] else slots[start..] + slots[..end + 1]
  }

  ghost function WalkOf(slots: seq<BlockData>): (w: seq<BlockData>)
    requires slots != []
    ensures w != []
  {
    Walk(slots, MinIndex(Scanned(slots)), MaxIndex(Scanned(slots)))
  }

  ghost function Lowest(s: seq<BlockData>): nat
    requires s != []
  {
    s[MinIndex(s)].number
  }

  ghost function Highest(s: seq<BlockData>): nat
    requires s != []
  {
    s[MaxIndex(s)].number
  }

  datatype Report = Report(count: nat, missing: seq<nat>)

  /** The report on a non-empty stretch of blocks. */
  ghost function ReportOn(s: seq<BlockData>): Report
    requires s != []
  {
    Report(|Numbers(s)|, Absent(Numbers(s), s[0].number, s[|s| - 1].number))
  }

  /** What the report should be: the distinct numbers among `s`, and the numbers between
      the lowest and the highest that do not occur. */
  ghost function TrueReport(s: seq<BlockData>): Report
    requires s != []
  {
    Report(|Numbers(s)|, Absent(Numbers(s), Lowest(s), Highest(s)))
  }

  // ---------------------------------------------------------------- the methods

  /** Slot 0 and the slots up to the next one without a number or a hash have their first lowest number
      at `start` and their first highest at `end`. */
  ghost predicate HasExtremesAt(slots: seq<BlockData>, start: nat, end: nat) {
    exists e: nat :: start < e && end < e && UpToFirstBlank(slots, e) && IsFirstLowest(slots, e, start)
                     && IsFirstHighest(slots, e, end)
  }

  /** No slot below `e` has a lower number than `k`, and none before `k` the same. */
  ghost predicate IsFirstLowest(slots: seq<BlockData>, e: nat, k: nat)
    requires k < e <= |slots|
  {
    forall i | 0 <= i < e :: slots[k].number <= slots[i].number && (slots[i].number == slots[k].number ==> k <= i)
  }

  ghost predicate IsFirstHighest(slots: seq<BlockData>, e: nat, k: nat)
    requires k < e <= |slots|
  {
    forall i | 0 <= i < e :: slots[i].number <= slots[k].number && (slots[i].number == slots[k].number ==> k <= i)
  }

  ghost predicate UpToFirstBlank(slots: seq<BlockData>, e: nat) {
    && e <= |slots|
    && (forall i | 1 <= i < e :: slots[i].number > 0 && slots[i].hash != "")
    && (e < |slots| ==> slots[e].number == 0 || slots[e].hash == "")
  }

  lemma {:induction false} ExtremesOfScan(slots: seq<BlockData>)
    requires slots != []
    ensures HasExtremesAt(slots, MinIndex(Scanned(slots)), MaxIndex(Scanned(slots)))
  {
    var e := ScanEnd(slots, 1);
    var min, max := MinIndex(Scanned(slots)), MaxIndex(Scanned(slots));
    assert UpToFirstBlank(slots, e) && Scanned(slots) == slots[..e];
    forall i | 0 <= i < e
      ensures slots[i] == Scanned(slots)[i]
    {
    }
    assert IsFirstLowest(slots, e, min) && IsFirstHighest(slots, e, max);
  }

  /** `findBlockStartAndEnd`. */
  method FindBlockStartAndEnd(data: array<BlockData>) returns (startIndex: nat, endIndex: nat)
    requires data.Length == DATA_LENGTH
    ensures startIndex == MinIndex(Scanned(data[..])) && endIndex == MaxIndex(Scanned(data[..]))
    ensures HasExtremesAt(data[..], startIndex, endIndex)
  {
    startIndex, endIndex := 0, 0;
    var earliest := data[0].number;
    var latest := data[0].number;
    var i := 1;
    while i < DATA_LENGTH
      invariant 1 <= i <= DATA_LENGTH
      invariant forall k | 1 <= k < i :: !IsEmpty(data[k])
      invariant FirstMin(data[..i], startIndex) && earliest == data[startIndex].number
      invariant FirstMax(data[..i], endIndex) && latest == data[endIndex].number
    {
      if IsEmpty(data[i]) {
        break;
      }
      var current := data[i].number;
      if earliest > current {
        startIndex := i;
        earliest := current;
      } else if latest < current {
        endIndex := i;
        latest := current;
      }
      i := i + 1;
    }
    assert data[..i] == Scanned(data[..]);
    ExtremesOfScan(data[..]);
  }

  /** `sortArray`. */
  method SortArray(data: array<BlockData>) returns (sorted: seq<BlockData>)
    requires data.Length == DATA_LENGTH
    ensures sorted == WalkOf(data[..])
  {
    var startIndex, endIndex := FindBlockStartAndEnd(data);
    if startIndex <= endIndex {
      return data[startIndex..endIndex + 1];
    }
    sorted := data[startIndex..DATA_LENGTH] + data[..endIndex + 1];
  }

  lemma {:induction false} NumbersSnoc(s: seq<BlockData>, k: nat)
    requires k < |s|
    ensures Numbers(s[..k + 1]) == Numbers(s[..k]) + {s[k].number}
  {
    assert s[..k + 1] == s[..k] + [s[k]];
  }

  /** First loop of `missingBlocks`: the numbers that occur, and how many there are. */
  method CollectNumbers(blocks: seq<BlockData>) returns (mappings: set<nat>, keys: seq<nat>)
    ensures mappings == Numbers(blocks) && |keys| == |Numbers(blocks)|
  {
    mappings, keys := {}, [];
    for k := 0 to |blocks|
      invariant mappings == Numbers(blocks[..k])
      invariant |keys| == |mappings|
    {
      NumbersSnoc(blocks, k);
      if blocks[k].number !in mappings {
        mappings := mappings + {blocks[k].number};
        keys := keys + [blocks[k].number];
      }
    }
    assert blocks[..|blocks|] == blocks;
  }

  /** `missingBlocks`; the source indexes the first and the last block. */
  method MissingBlocks(blocks: seq<BlockData>) returns (count: nat, missing: seq<nat>)
    requires blocks != []
    ensures Report(count, missing) == ReportOn(blocks)
  {
    var mappings, keys := CollectNumbers(blocks);
    var first, last := blocks[0].number, blocks[|blocks| - 1].number;
    missing := [];
    var i := first;
    while i < last
      invariant first <= i && (i <= last || i == first)
      invariant missing == Absent(mappings, first, i)
    {
      if i !in mappings {
        missing := missing + [i];
      }
      i := i + 1;
    }
    count := |keys|;
  }

  // ---------------------------------------------------------------- when the report is right

  /** The blocks of a ring that has never wrapped, or stands at slot 0, lie in array order. */
  ghost predicate InArrayOrder(r: Ring) {
    WellFormed(r) && (Full(r.slots) ==> r.id == 0) && Recency(r) != []
  }

  lemma {:induction false} ScannedIsOccupied(r: Ring)
    requires WellFormed(r) && Recency(r) != []
    ensures Scanned(r.slots) == if Full(r.slots) then r.slots else r.slots[..r.id]
    ensures InArrayOrder(r) ==> Scanned(r.slots) == Recency(r)
    ensures Numbers(Scanned(r.slots)) == Numbers(Recency(r))
  {
    var e := ScanEnd(r.slots, 1);
    if Full(r.slots) {
      assert e == DATA_LENGTH;
      assert r.slots[..e] == r.slots;
      forall b ensures b in r.slots <==> b in Recency(r) {
        assert r.slots == r.slots[..r.id] + r.slots[r.id..];
      }
    } else {
      assert r.slots[r.id] == NO_BLOCK;
      assert e == r.id;
    }
  }

  lemma {:induction false} NumbersAt(s: seq<BlockData>, i: nat)
    requires i < |s|
    ensures s[i].number in Numbers(s)
  {
    assert s[i] in s;
  }

  /** If the walk carries the same numbers as the whole ring, the report is right. */
  lemma {:induction false} SameNumbersSameReport(slots: seq<BlockData>, s: seq<BlockData>)
    requires slots != [] && s != []
    requires Numbers(Scanned(slots)) == Numbers(s)
    requires Numbers(WalkOf(slots)) == Numbers(s)
    ensures ReportOn(WalkOf(slots)) == TrueReport(s)
  {
    SameExtremes(Scanned(slots), s);
    WalkEnds(slots);
  }

  lemma {:induction false} SameExtremes(s: seq<BlockData>, t: seq<BlockData>)
    requires s != [] && t != [] && Numbers(s) == Numbers(t)
    ensures Lowest(s) == Lowest(t) && Highest(s) == Highest(t)
  {
    NumbersAt(s, MinIndex(s));
    NumbersAt(s, MaxIndex(s));
    NumbersAt(t, MinIndex(t));
    NumbersAt(t, MaxIndex(t));
  }

  lemma {:induction false} WalkEnds(slots: seq<BlockData>)
    requires slots != []
    ensures WalkOf(slots)[0] == slots[MinIndex(Scanned(slots))]
    ensures WalkOf(slots)[|WalkOf(slots)| - 1] == slots[MaxIndex(Scanned(slots))]
  {
  }

  /** `Numbers(s)` is covered by the walk when every block of `s` has its number on it. */
  lemma {:induction false} CoveredNumbers(s: seq<BlockData>, w: seq<BlockData>)
    requires forall i | 0 <= i < |s| :: s[i].number in Numbers(w)
    requires forall i | 0 <= i < |w| :: w[i].number in Numbers(s)
    ensures Numbers(w) == Numbers(s)
  {
    forall x | x in Numbers(s) ensures x in Numbers(w) {
      var b :| b in s && b.number == x;
      var i :| 0 <= i < |s| && s[i] == b;
    }
    forall x | x in Numbers(w) ensures x in Numbers(s) {
      var b :| b in w && b.number == x;
      var i :| 0 <= i < |w| && w[i] == b;
    }
  }

  ghost predicate AboveAllEarlier(s: seq<BlockData>, i: nat) {
    i < |s| && forall j | 0 <= j < i :: s[j].number < s[i].number
  }

  ghost predicate RepeatsEarlier(s: seq<BlockData>, i: nat) {
    i < |s| && exists j :: 0 <= j < i && s[j].number == s[i].number
  }

  /** Every block of an unwrapped stretch that is not above all earlier ones repeats a number
      already in it. */
  ghost predicate ForksRepeat(s: seq<BlockData>) {
    forall i: nat | i < |s| :: AboveAllEarlier(s, i) || RepeatsEarlier(s, i)
  }

  lemma {:induction false} FirstIsLowest(s: seq<BlockData>, i: nat)
    requires ForksRepeat(s) && i < |s|
    ensures s[0].number <= s[i].number
  {
    assert AboveAllEarlier(s, i) || RepeatsEarlier(s, i);
    if RepeatsEarlier(s, i) {
      var j :| 0 <= j < i && s[j].number == s[i].number;
      FirstIsLowest(s, j);
    }
  }

  /** Every number occurs no later than the first maximum. */
  lemma {:induction false} OccursByFirstMax(s: seq<BlockData>, m: nat, i: nat) returns (k: nat)
    requires ForksRepeat(s) && FirstMax(s, m) && i < |s|
    ensures k <= m && s[k].number == s[i].number
  {
    if i <= m {
      k := i;
    } else {
      assert !AboveAllEarlier(s, i) by {
        assert !(s[m].number < s[i].number);
      }
      assert RepeatsEarlier(s, i);
      var j :| 0 <= j < i && s[j].number == s[i].number;
      k := OccursByFirstMax(s, m, j);
    }
  }

  lemma {:induction false} WalkIsPrefix(r: Ring)
    requires InArrayOrder(r) && ForksRepeat(Recency(r))
    ensures WalkOf(r.slots) == Recency(r)[..MaxIndex(Recency(r)) + 1]
  {
    var l := Recency(r);
    ScannedIsOccupied(r);
    FirstIsLowest(l, MinIndex(l));
    assert MinIndex(l) == 0;
  }

  lemma {:induction false} PrefixCovers(s: seq<BlockData>)
    requires s != [] && ForksRepeat(s)
    ensures Numbers(s[..MaxIndex(s) + 1]) == Numbers(s)
  {
    var w := s[..MaxIndex(s) + 1];
    forall i | 0 <= i < |s| ensures s[i].number in Numbers(w) {
      var k := OccursByFirstMax(s, MaxIndex(s), i);
      NumbersAt(w, k);
    }
    forall i | 0 <= i < |w| ensures w[i].number in Numbers(s) {
      NumbersAt(s, i);
    }
    CoveredNumbers(s, w);
  }

  /** Gap detection tolerates forks as long as the ring has not wrapped: although the walk stops
      at the first maximum, the report is right. */
  lemma {:induction false} ForksToleratedBeforeWrap(r: Ring)
    requires InArrayOrder(r) && ForksRepeat(Recency(r))
    ensures ReportOn(WalkOf(r.slots)) == TrueReport(Recency(r))
  {
    WalkIsPrefix(r);
    PrefixCovers(Recency(r));
    ScannedIsOccupied(r);
    SameNumbersSameReport(r.slots, Recency(r));
  }

  // ---------------------------------------------------------------- a wrapped ring in order

  lemma {:induction false} RecencyAt(r: Ring, j: nat)
    requires WellFormed(r) && Full(r.slots) && j < DATA_LENGTH
    ensures |Recency(r)| == DATA_LENGTH
    ensures r.slots[j] == Recency(r)[if j >= r.id then j - r.id else j + DATA_LENGTH - r.id]
  {
  }

  /** In a wrapped ring in number order, slots `i` and `j` are ordered by age. */
  lemma {:induction false} AgeOrder(r: Ring, i: nat, j: nat)
    requires WellFormed(r) && Full(r.slots) && NumberOrdered(Recency(r))
    requires i < DATA_LENGTH && j < DATA_LENGTH
    requires i < r.id <= j || (i >= j && (i < r.id <==> j < r.id))
    ensures r.slots[j].number <= r.slots[i].number
  {
    RecencyAt(r, i);
    RecencyAt(r, j);
  }

  /** Where the scan of a wrapped ring starts and ends. */
  lemma {:induction false} WrappedScan(r: Ring, start: nat, end: nat)
    requires WellFormed(r) && Full(r.slots) && NumberOrdered(Recency(r)) && r.id > 0
    requires FirstMin(r.slots, start) && FirstMax(r.slots, end)
    ensures end < r.id
    ensures || start == r.id
            || (start == 0 && forall j | r.id <= j < DATA_LENGTH :: r.slots[j].number == r.slots[0].number)
  {
    AgeOrder(r, r.id - 1, end);
    forall j | 0 <= j < DATA_LENGTH ensures r.slots[j].number <= r.slots[r.id - 1].number {
      AgeOrder(r, r.id - 1, j);
    }
    forall j | 0 <= j < DATA_LENGTH ensures r.slots[r.id].number <= r.slots[j].number {
      AgeOrder(r, j, r.id);
    }
    if start < r.id {
      AgeOrder(r, start, 0);
      forall j | r.id <= j < DATA_LENGTH ensures r.slots[j].number == r.slots[0].number {
        AgeOrder(r, 0, j);
      }
    }
  }

  lemma {:induction false} OnWalk(slots: seq<BlockData>, start: nat, end: nat, j: nat)
    requires start < |slots| && end < |slots| && j < |slots|
    requires if start <= end then start <= j <= end else j <= end || start <= j
    ensures slots[j].number in Numbers(Walk(slots, start, end))
  {
    var k := if start <= j then j - start else |slots| - start + j;
    assert Walk(slots, start, end)[k] == slots[j];
    NumbersAt(Walk(slots, start, end), k);
  }

  lemma {:induction false} WrappedWalkCovers(r: Ring, j: nat)
    requires WellFormed(r) && Full(r.slots) && NumberOrdered(Recency(r)) && r.id > 0
    requires Scanned(r.slots) == r.slots && j < DATA_LENGTH
    ensures r.slots[j].number in Numbers(WalkOf(r.slots))
  {
    var start, end := MinIndex(r.slots), MaxIndex(r.slots);
    WrappedScan(r, start, end);
    if end < j < r.id {
      AgeOrder(r, j, end);
      OnWalk(r.slots, start, end, end);
    } else if j >= r.id && start == 0 {
      OnWalk(r.slots, start, end, 0);
    } else {
      OnWalk(r.slots, start, end, j);
    }
  }

  lemma {:induction false} OrderedForksRepeat(s: seq<BlockData>)
    requires NumberOrdered(s)
    ensures ForksRepeat(s)
  {
    forall i: nat | i < |s| ensures AboveAllEarlier(s, i) || RepeatsEarlier(s, i) {
      if !AboveAllEarlier(s, i) {
        var j :| 0 <= j < i && !(s[j].number < s[i].number);
        assert s[j].number == s[i].number;
      }
    }
  }

  lemma {:induction false} WrappedRingReport(r: Ring)
    requires WellFormed(r) && Full(r.slots) && r.id > 0 && NumberOrdered(Recency(r))
    ensures ReportOn(WalkOf(r.slots)) == TrueReport(Recency(r))
  {
    ScannedIsOccupied(r);
    var s, w := r.slots, WalkOf(r.slots);
    forall i | 0 <= i < |s| ensures s[i].number in Numbers(w) {
      WrappedWalkCovers(r, i);
    }
    WalkStaysInside(s);
    CoveredNumbers(s, w);
    SameNumbersSameReport(s, Recency(r));
  }

  lemma {:induction false} WalkStaysInside(slots: seq<BlockData>)
    requires slots != []
    ensures forall i | 0 <= i < |WalkOf(slots)| :: WalkOf(slots)[i].number in Numbers(slots)
  {
    var w := WalkOf(slots);
    forall i | 0 <= i < |w| ensures w[i].number in Numbers(slots) {
      assert w[i] in slots;
    }
  }

  /** Main result: whatever the rotation, and whichever of several equal extremes the scan picks,
      the report on a ring whose blocks came in number order is right. */
  lemma {:induction false} OrderedRingReport(r: Ring)
    requires WellFormed(r) && Recency(r) != [] && NumberOrdered(Recency(r))
    ensures ReportOn(WalkOf(r.slots)) == TrueReport(Recency(r))
  {
    if InArrayOrder(r) {
      OrderedForksRepeat(Recency(r));
      ForksToleratedBeforeWrap(r);
    } else {
      WrappedRingReport(r);
    }
  }

  // ---------------------------------------------------------------- accounting without order

  ghost function Within(present: set<nat>, lo: nat, hi: nat): set<nat> {
    set x | x in present && lo <= x < hi
  }

  lemma {:induction false} AbsentCounts(present: set<nat>, lo: nat, hi: nat)
    requires lo <= hi
    ensures |Within(present, lo, hi)| + |Absent(present, lo, hi)| == hi - lo
  {
    if lo < hi {
      AbsentCounts(present, lo, hi - 1);
      var last: set<nat> := if hi - 1 in present then {hi - 1} else {};
      assert Within(present, lo, hi) == Within(present, lo, hi - 1) + last;
    } else {
      assert Within(present, lo, hi) == {};
    }
  }

  /** The walk runs over blank slots: the ring is not full and the highest number comes first. */
  ghost predicate WalksOverBlanks(slots: seq<BlockData>)
    requires slots != []
  {
    !Full(slots) && MaxIndex(Scanned(slots)) < MinIndex(Scanned(slots))
  }

  lemma {:induction false} WalkSlot(slots: seq<BlockData>, start: nat, end: nat, i: nat) returns (j: nat)
    requires start < |slots| && end < |slots| && i < |Walk(slots, start, end)|
    ensures j < |slots| && Walk(slots, start, end)[i] == slots[j]
    ensures if start <= end then start <= j <= end else j <= end || start <= j
  {
    j := if start + i < |slots| then start + i else start + i - |slots|;
  }

  lemma {:induction false} WalkBlocks(r: Ring, i: nat)
    requires WellFormed(r) && Recency(r) != [] && i < |WalkOf(r.slots)|
    ensures || WalkOf(r.slots)[i] in Scanned(r.slots)
            || (WalkOf(r.slots)[i] == NO_BLOCK && WalksOverBlanks(r.slots))
  {
    ScannedIsOccupied(r);
    var scan := Scanned(r.slots);
    var j := WalkSlot(r.slots, MinIndex(scan), MaxIndex(scan), i);
    if j < |scan| {
      assert scan[j] == r.slots[j];
    }
  }

  lemma {:induction false} BlanksOnWalk(r: Ring)
    requires WellFormed(r) && Recency(r) != [] && WalksOverBlanks(r.slots)
    ensures 0 in Numbers(WalkOf(r.slots))
  {
    ScannedIsOccupied(r);
    var k := DATA_LENGTH - 1 - MinIndex(Scanned(r.slots));
    assert WalkOf(r.slots)[k] == NO_BLOCK;
    NumbersAt(WalkOf(r.slots), k);
  }

  lemma {:induction false} ScannedIsValid(r: Ring)
    requires WellFormed(r) && Recency(r) != []
    ensures forall b | b in Scanned(r.slots) ::
              0 < Lowest(Scanned(r.slots)) <= b.number <= Highest(Scanned(r.slots))
  {
    ScannedIsOccupied(r);
  }

  lemma {:induction false} WalkNumberIsScanned(r: Ring, x: nat)
    requires WellFormed(r) && Recency(r) != [] && x in Numbers(WalkOf(r.slots))
    ensures x in Numbers(Scanned(r.slots)) || (x == 0 && WalksOverBlanks(r.slots))
  {
    var w := WalkOf(r.slots);
    var b :| b in w && b.number == x;
    var i :| 0 <= i < |w| && w[i] == b;
    WalkBlocks(r, i);
  }

  /** The numbers on the walk are those of the ring, except for the number 0 of blank slots. */
  lemma {:induction false} WalkNumbers(r: Ring)
    requires WellFormed(r) && Recency(r) != []
    ensures Numbers(WalkOf(r.slots)) <= Numbers(Recency(r)) + {0}
    ensures 0 in Numbers(WalkOf(r.slots)) <==> WalksOverBlanks(r.slots)
    ensures forall x | x in Numbers(Recency(r)) :: 0 < Lowest(Recency(r)) <= x <= Highest(Recency(r))
  {
    ScannedIsValid(r);
    RecencyNumbers(r);
    forall x | x in Numbers(WalkOf(r.slots))
      ensures x in Numbers(Recency(r)) || (x == 0 && WalksOverBlanks(r.slots))
    {
      WalkNumberIsScanned(r, x);
    }
    if WalksOverBlanks(r.slots) {
      BlanksOnWalk(r);
    }
  }

  lemma {:induction false} RecencyNumbers(r: Ring)
    requires WellFormed(r) && Recency(r) != []
    ensures Numbers(Scanned(r.slots)) == Numbers(Recency(r))
    ensures Lowest(Scanned(r.slots)) == Lowest(Recency(r)) && Highest(Scanned(r.slots)) == Highest(Recency(r))
  {
    ScannedIsOccupied(r);
    SameExtremes(Scanned(r.slots), Recency(r));
  }

  lemma {:induction false} ReportEnds(r: Ring)
    requires WellFormed(r) && Recency(r) != []
    ensures ReportOn(WalkOf(r.slots)).missing
            == Absent(Numbers(WalkOf(r.slots)), Lowest(Recency(r)), Highest(Recency(r)))
    ensures Highest(Recency(r)) in Numbers(WalkOf(r.slots))
  {
    WalkEnds(r.slots);
    RecencyNumbers(r);
    NumbersAt(WalkOf(r.slots), |WalkOf(r.slots)| - 1);
  }

  lemma {:induction false} CountBetween(all: set<nat>, lo: nat, hi: nat)
    requires 0 < lo <= hi && hi in all && forall x | x in all && x != 0 :: lo <= x <= hi
    ensures |all| + |Absent(all, lo, hi)| == hi - lo + 1 + (if 0 in all then 1 else 0)
  {
    AbsentCounts(all, lo, hi);
    var low := Within(all, lo, hi);
    var blank: set<nat> := if 0 in all then {0} else {};
    assert all == low + {hi} + blank;
    assert |low + {hi}| == |low| + 1;
    assert |low + {hi} + blank| == |low + {hi}| + |blank|;
  }

  /** The report accounts for every number from the lowest to the highest exactly when the walk
      does not run over blank slots; otherwise it counts one block too many. */
  lemma {:induction false} AccountingIff(r: Ring)
    requires WellFormed(r) && Recency(r) != []
    ensures var report := ReportOn(WalkOf(r.slots));
            report.count + |report.missing|
            == Highest(Recency(r)) - Lowest(Recency(r)) + 1 + (if WalksOverBlanks(r.slots) then 1 else 0)
  {
    var l := Recency(r);
    WalkNumbers(r);
    ReportEnds(r);
    NumbersAt(l, MinIndex(l));
    CountBetween(Numbers(WalkOf(r.slots)), Lowest(l), Highest(l));
  }

  /** The numbers outside `[lo, hi]`. */
  ghost function Outside(all: set<nat>, lo: nat, hi: nat): set<nat> {
    set x | x in all && !(lo <= x <= hi)
  }

  lemma {:induction false} CountAround(all: set<nat>, lo: nat, hi: nat)
    requires lo <= hi && hi in all
    ensures |all| + |Absent(all, lo, hi)| == hi - lo + 1 + |Outside(all, lo, hi)|
  {
    AbsentCounts(all, lo, hi);
    var low, out := Within(all, lo, hi), Outside(all, lo, hi);
    assert low == all - {hi} - out;
    assert |all - {hi}| == |all| - 1;
    assert |all - {hi}| == |(all - {hi}) - out| + |out| by {
      assert (all - {hi}) * out == out;
    }
  }

  lemma {:induction false} ForwardWalkIsScanned(slots: seq<BlockData>, x: nat)
    requires slots != [] && MinIndex(Scanned(slots)) <= MaxIndex(Scanned(slots))
    requires x in Numbers(WalkOf(slots))
    ensures Lowest(Scanned(slots)) <= x <= Highest(Scanned(slots))
  {
    var s, w := Scanned(slots), WalkOf(slots);
    var b :| b in w && b.number == x;
    var i :| 0 <= i < |w| && w[i] == b;
    var j := WalkSlot(slots, MinIndex(s), MaxIndex(s), i);
    assert s[j] == slots[j];
  }

  /** The accounting for any contents whatever, blocks without a hash among them: the surplus is the
      count of the numbers on the walk outside the scanned range, and there are none when the first
      lowest number is not after the first highest. */
  lemma {:induction false} AccountingOfAny(slots: seq<BlockData>)
    requires slots != []
    ensures var s, report := Scanned(slots), ReportOn(WalkOf(slots));
            var surplus := Outside(Numbers(WalkOf(slots)), Lowest(s), Highest(s));
            && report.count + |report.missing| == Highest(s) - Lowest(s) + 1 + |surplus|
            && (MinIndex(s) <= MaxIndex(s) ==> surplus == {})
  {
    var s, w := Scanned(slots), WalkOf(slots);
    WalkEnds(slots);
    NumbersAt(w, |w| - 1);
    CountAround(Numbers(w), Lowest(s), Highest(s));
    if MinIndex(s) <= MaxIndex(s) {
      forall x | x in Numbers(w) ensures Lowest(s) <= x <= Highest(s) {
        ForwardWalkIsScanned(slots, x);
      }
    }
  }

  /** Whatever the order of the blocks, no number absent from the ring goes unreported. */
  lemma {:induction false} NoGapUnreported(r: Ring, x: nat)
    requires WellFormed(r) && Recency(r) != []
    requires x !in Numbers(Recency(r)) && Lowest(Recency(r)) <= x < Highest(Recency(r))
    ensures x in ReportOn(WalkOf(r.slots)).missing
  {
    WalkNumbers(r);
    ReportEnds(r);
    NumbersAt(Recency(r), MinIndex(Recency(r)));
    AbsentIsExact(Numbers(WalkOf(r.slots)), Lowest(Recency(r)), Highest(Recency(r)));
  }

  lemma {:induction false} AbsentDetermines(a: set<nat>, b: set<nat>, lo: nat, hi: nat, x: nat)
    requires Absent(a, lo, hi) == Absent(b, lo, hi) && lo <= x < hi
    ensures x in a <==> x in b
  {
    AbsentIsExact(a, lo, hi);
    AbsentIsExact(b, lo, hi);
  }

  /** A right report means that every number of the ring is on the walk. */
  lemma {:induction false} RightReportCovers(walked: set<nat>, all: set<nat>, lo: nat, hi: nat)
    requires Absent(walked, lo, hi) == Absent(all, lo, hi) && |walked| == |all|
    requires hi in walked && forall x | x in all :: lo <= x <= hi
    ensures walked == all
  {
    forall x | x in all ensures x in walked {
      if x < hi {
        AbsentDetermines(walked, all, lo, hi, x);
      }
    }
    SameSizeSubset(all, walked);
  }

  /** A right report and a walk that carries all numbers are the same thing. */
  lemma {:induction false} RightIffWalkComplete(r: Ring)
    requires WellFormed(r) && Recency(r) != []
    ensures ReportOn(WalkOf(r.slots)) == TrueReport(Recency(r))
            <==> Numbers(WalkOf(r.slots)) == Numbers(Recency(r))
  {
    ReportEnds(r);
    if ReportOn(WalkOf(r.slots)) == TrueReport(Recency(r)) {
      WalkNumbers(r);
      RightReportCovers(Numbers(WalkOf(r.slots)), Numbers(Recency(r)), Lowest(Recency(r)), Highest(Recency(r)));
    } else {
      RecencyNumbers(r);
      if Numbers(WalkOf(r.slots)) == Numbers(Recency(r)) {
        SameNumbersSameReport(r.slots, Recency(r));
      }
    }
  }

  // ---------------------------------------------------------------- the exact condition

  /** Block `j` lies on the stretch from the first lowest to the first highest number, around the
      end when the highest comes first. */
  ghost predicate OnStretch(s: seq<BlockData>, j: nat) {
    && j < |s|
    && var lo, hi := MinIndex(s), MaxIndex(s);
       if lo <= hi then lo <= j <= hi else j <= hi || lo <= j
  }

  /** Block `i` carries the number of some block on the stretch. */
  ghost predicate OnStretchAgain(s: seq<BlockData>, i: nat) {
    i < |s| && exists j: nat :: OnStretch(s, j) && s[j].number == s[i].number
  }

  /** The slots are all in use or the first lowest is not after the first highest, and every block
      repeats a number of some block on the stretch between the two. */
  ghost predicate StretchCovers(s: seq<BlockData>) {
    && s != []
    && (|s| == DATA_LENGTH || MinIndex(s) <= MaxIndex(s))
    && forall i: nat | i < |s| :: OnStretchAgain(s, i)
  }

  lemma {:induction false} StretchIsWalked(r: Ring, j: nat)
    requires WellFormed(r) && Recency(r) != [] && OnStretch(Scanned(r.slots), j)
    ensures Scanned(r.slots)[j].number in Numbers(WalkOf(r.slots))
  {
    OnWalk(r.slots, MinIndex(Scanned(r.slots)), MaxIndex(Scanned(r.slots)), j);
  }

  lemma {:induction false} WalkedIsStretch(r: Ring, x: nat) returns (j: nat)
    requires WellFormed(r) && Recency(r) != [] && x in Numbers(WalkOf(r.slots)) && x != 0
    ensures OnStretch(Scanned(r.slots), j) && Scanned(r.slots)[j].number == x
  {
    ScannedIsOccupied(r);
    var scan, w := Scanned(r.slots), WalkOf(r.slots);
    var b :| b in w && b.number == x;
    var i :| 0 <= i < |w| && w[i] == b;
    j := WalkSlot(r.slots, MinIndex(scan), MaxIndex(scan), i);
    assert j < |scan| by {
      assert r.slots[j] != NO_BLOCK;
    }
  }

  lemma {:induction false} CompleteCovers(r: Ring)
    requires WellFormed(r) && Recency(r) != []
    requires Numbers(Scanned(r.slots)) <= Numbers(WalkOf(r.slots))
    ensures forall i: nat | i < |Scanned(r.slots)| :: OnStretchAgain(Scanned(r.slots), i)
  {
    var s := Scanned(r.slots);
    ScannedIsValid(r);
    forall i: nat | i < |s| ensures OnStretchAgain(s, i) {
      NumbersAt(s, i);
      assert s[i] in s;
      var j := WalkedIsStretch(r, s[i].number);
    }
  }

  lemma {:induction false} CoversComplete(r: Ring)
    requires WellFormed(r) && Recency(r) != []
    requires forall i: nat | i < |Scanned(r.slots)| :: OnStretchAgain(Scanned(r.slots), i)
    ensures Numbers(Scanned(r.slots)) <= Numbers(WalkOf(r.slots))
  {
    var s := Scanned(r.slots);
    forall x | x in Numbers(s) ensures x in Numbers(WalkOf(r.slots)) {
      var b :| b in s && b.number == x;
      var i :| 0 <= i < |s| && s[i] == b;
      assert OnStretchAgain(s, i);
      var j: nat :| OnStretch(s, j) && s[j].number == s[i].number;
      StretchIsWalked(r, j);
    }
  }

  lemma {:induction false} BlanksIffShort(r: Ring)
    requires WellFormed(r) && Recency(r) != []
    ensures WalksOverBlanks(r.slots)
            <==> |Scanned(r.slots)| != DATA_LENGTH && MaxIndex(Scanned(r.slots)) < MinIndex(Scanned(r.slots))
  {
    ScannedIsOccupied(r);
  }

  lemma {:induction false} WalkCompleteIffCovers(r: Ring)
    requires WellFormed(r) && Recency(r) != []
    ensures Numbers(WalkOf(r.slots)) == Numbers(Recency(r)) <==> StretchCovers(Scanned(r.slots))
  {
    RecencyNumbers(r);
    WalkNumbers(r);
    BlanksIffShort(r);
    if Numbers(WalkOf(r.slots)) == Numbers(Recency(r)) {
      CompleteCovers(r);
    }
    if StretchCovers(Scanned(r.slots)) {
      CoversComplete(r);
    }
  }

  /** Main result, for any order of valid blocks: the report is right if and only if every block
      in the slots repeats a number on the stretch from the first lowest to the first highest,
      and that stretch runs over no blank slot. */
  lemma {:induction false} ReportIsRightIff(r: Ring)
    requires WellFormed(r) && Recency(r) != []
    ensures ReportOn(WalkOf(r.slots)) == TrueReport(Recency(r)) <==> StretchCovers(Scanned(r.slots))
  {
    RightIffWalkComplete(r);
    WalkCompleteIffCovers(r);
  }

  /** A block that repeats no number on the stretch is reported missing although it is in the ring. */
  lemma {:induction false} OffStretchReportedMissing(r: Ring, i: nat)
    requires WellFormed(r) && Recency(r) != []
    requires i < |Scanned(r.slots)| && !OnStretchAgain(Scanned(r.slots), i)
    ensures Scanned(r.slots)[i].number in Numbers(Recency(r))
    ensures Scanned(r.slots)[i].number in ReportOn(WalkOf(r.slots)).missing
  {
    var s := Scanned(r.slots);
    var x := s[i].number;
    ScannedIsOccupied(r);
    NumbersAt(s, i);
    WalkNumbers(r);
    RecencyNumbers(r);
    ReportEnds(r);
    if x in Numbers(WalkOf(r.slots)) {
      var j := WalkedIsStretch(r, x);
    }
    assert OnStretch(s, MaxIndex(s));
    AbsentIsExact(Numbers(WalkOf(r.slots)), Lowest(Recency(r)), Highest(Recency(r)));
  }

  // ---------------------------------------------------------------- whole runs

  lemma {:induction false} SuffixOrdered(l: seq<BlockData>, h: seq<BlockData>)
    requires IsSuffix(l, h) && NumberOrdered(h)
    ensures NumberOrdered(l)
  {
    assert forall i | 0 <= i < |l| :: l[i] == h[|h| - |l| + i];
  }

  /** Over any run of valid blocks in number order, expiry included, the report is right about
      the recent blocks. */
  lemma {:induction false} GapReportOverRuns(events: seq<Event>, n: nat)
    requires n <= |events|
    requires AllValid(History(events, n)) && OrderedAtTicks(events, n) && NeverSplit(events, n)
    requires NumberOrdered(History(events, n)) && ListRun(events, n) != []
    ensures Run(events, n).Some?
    ensures ReportOn(WalkOf(Run(events, n).value.slots)) == TrueReport(ListRun(events, n))
  {
    RingRefinesList(events, n);
    SuffixOrdered(ListRun(events, n), History(events, n));
    OrderedRingReport(Run(events, n).value);
  }

  /** Any number of blocks in number order and no expiry, through any number of wraps: the missing
      numbers are those between the extremes of the last 100 blocks that do not occur among them,
      in ascending order, and the count is the number of distinct ones. */
  lemma {:induction false} GapReportOfLastHundred(events: seq<Event>, n: nat)
    requires 0 < n <= |events| && forall k | 0 <= k < n :: events[k].Received?
    requires AllValid(History(events, n)) && NumberOrdered(History(events, n))
    ensures |History(events, n)| == n && Run(events, n).Some?
    ensures var last := History(events, n)[if n < 100 then 0 else n - 100..];
            ReportOn(WalkOf(Run(events, n).value.slots)) == TrueReport(last)
  {
    AddsKeepTheLast(events, n);
    GapReportOverRuns(events, n);
  }

  /** The received blocks in the order of the slots they are in: as received up to 100 of them,
      then the newest `|h| % 100` first and the older ones of the last 100 behind. */
  function SlotOrder(h: seq<BlockData>): seq<BlockData> {
    if |h| <= DATA_LENGTH then h
    else
      var k := |h| % DATA_LENGTH;
      h[|h| - k..] + h[|h| - DATA_LENGTH..|h| - k]
  }

  lemma {:induction false} NextSlot(events: seq<Event>, n: nat)
    requires n <= |events| && forall k | 0 <= k < n :: events[k].Received?
    ensures Run(events, n).Some? && Run(events, n).value.id == n % DATA_LENGTH
  {
    if n > 0 {
      NextSlot(events, n - 1);
    }
  }

  lemma {:induction false} UnrotateFull(r: Ring)
    requires WellFormed(r) && Full(r.slots)
    ensures |Recency(r)| == DATA_LENGTH
    ensures r.slots == Recency(r)[DATA_LENGTH - r.id..] + Recency(r)[..DATA_LENGTH - r.id]
  {
  }

  lemma {:induction false} SliceOfLast(h: seq<BlockData>, l: seq<BlockData>, k: nat)
    requires |h| >= DATA_LENGTH && k <= DATA_LENGTH && l == h[|h| - DATA_LENGTH..]
    ensures l[DATA_LENGTH - k..] == h[|h| - k..]
    ensures l[..DATA_LENGTH - k] == h[|h| - DATA_LENGTH..|h| - k]
  {
  }

  lemma {:induction false} SlotOrderOfLast(h: seq<BlockData>, l: seq<BlockData>, k: nat)
    requires |h| >= DATA_LENGTH && k == |h| % DATA_LENGTH && l == h[|h| - DATA_LENGTH..]
    ensures SlotOrder(h) == l[DATA_LENGTH - k..] + l[..DATA_LENGTH - k]
  {
    if |h| == DATA_LENGTH {
      assert l == h && l[DATA_LENGTH..] == [] && l[..DATA_LENGTH] == l;
    } else {
      SliceOfLast(h, l, k);
    }
  }

  lemma {:induction false} ScannedInSlotOrder(r: Ring, h: seq<BlockData>)
    requires WellFormed(r) && h != [] && r.id == |h| % DATA_LENGTH
    requires Recency(r) == h[if |h| < DATA_LENGTH then 0 else |h| - DATA_LENGTH..]
    ensures Scanned(r.slots) == SlotOrder(h)
  {
    ScannedIsOccupied(r);
    if Full(r.slots) {
      UnrotateFull(r);
      SlotOrderOfLast(h, Recency(r), r.id);
    }
  }

  lemma {:induction false} ScannedIsSlotOrder(events: seq<Event>, n: nat)
    requires 0 < n <= |events| && forall k | 0 <= k < n :: events[k].Received?
    requires AllValid(History(events, n))
    ensures |History(events, n)| == n && Run(events, n).Some?
    ensures WellFormed(Run(events, n).value) && Recency(Run(events, n).value) == ListRun(events, n)
    ensures Scanned(Run(events, n).value.slots) == SlotOrder(History(events, n))
  {
    AddsKeepTheLast(events, n);
    RingRefinesList(events, n);
    NextSlot(events, n);
    ScannedInSlotOrder(Run(events, n).value, History(events, n));
  }

  /** Main result: over any number of valid blocks, in any order, the report about the last 100 is
      right if and only if, taken in slot order, they are 100 or their first lowest is not after
      their first highest, and each repeats a number on the stretch between those two. */
  lemma {:induction false} GapReportIff(events: seq<Event>, n: nat)
    requires 0 < n <= |events| && forall k | 0 <= k < n :: events[k].Received?
    requires AllValid(History(events, n))
    ensures |History(events, n)| == n && Run(events, n).Some?
    ensures var last := History(events, n)[if n < 100 then 0 else n - 100..];
            ReportOn(WalkOf(Run(events, n).value.slots)) == TrueReport(last)
            <==> StretchCovers(SlotOrder(History(events, n)))
  {
    ScannedIsSlotOrder(events, n);
    AddsKeepTheLast(events, n);
    ReportIsRightIff(Run(events, n).value);
  }

  /** The list of recent blocks in the order of the slots they are in. */
  function Arranged(l: seq<BlockData>, next: nat): seq<BlockData>
    requires next <= DATA_LENGTH
  {
    if |l| < DATA_LENGTH then l else l[|l| - next..] + l[..|l| - next]
  }

  lemma {:induction false} ScannedIsArranged(r: Ring)
    requires WellFormed(r) && Recency(r) != []
    ensures Scanned(r.slots) == Arranged(Recency(r), r.id)
  {
    ScannedIsOccupied(r);
    if Full(r.slots) {
      UnrotateFull(r);
    }
  }

  /** Main result, expiry included: over any run of valid blocks in receive order at its ticks, none
      of them split, the report about the recent blocks is right if and only if, arranged in slot
      order, they cover their stretch. Numbers may come in any order. */
  lemma {:induction false} GapReportIffOverRuns(events: seq<Event>, n: nat)
    requires n <= |events|
    requires AllValid(History(events, n)) && OrderedAtTicks(events, n) && NeverSplit(events, n)
    requires History(events, n) != []
    ensures Run(events, n).Some? && ListRun(events, n) != [] && NextRun(events, n) <= DATA_LENGTH
    ensures ReportOn(WalkOf(Run(events, n).value.slots)) == TrueReport(ListRun(events, n))
            <==> StretchCovers(Arranged(ListRun(events, n), NextRun(events, n)))
  {
    ListRunEmptyIff(events, n);
    RingRefinesList(events, n);
    RingWritesNext(events, n);
    ScannedIsArranged(Run(events, n).value);
    ReportIsRightIff(Run(events, n).value);
  }

  /** Among up to 100 blocks, one that comes after the highest and repeats no earlier number is
      reported missing although it was received. */
  lemma {:induction false} LateBlockReportedMissing(events: seq<Event>, n: nat, i: nat)
    requires 0 < n <= |events| && n <= DATA_LENGTH && forall k | 0 <= k < n :: events[k].Received?
    requires AllValid(History(events, n)) && |History(events, n)| == n
    requires MinIndex(History(events, n)) <= MaxIndex(History(events, n)) < i < n
    requires forall j | 0 <= j < i :: History(events, n)[j].number != History(events, n)[i].number
    ensures Run(events, n).Some?
    ensures History(events, n)[i].number in ReportOn(WalkOf(Run(events, n).value.slots)).missing
  {
    ScannedIsSlotOrder(events, n);
    OffStretchReportedMissing(Run(events, n).value, i);
  }

  lemma {:induction false} UnwrappedIfFew(r: Ring, h: seq<BlockData>)
    requires WellFormed(r) && Recency(r) == h && 0 < |h| <= DATA_LENGTH && r.id == |h| % DATA_LENGTH
    ensures InArrayOrder(r)
  {
    if Full(r.slots) {
      UnrotateFull(r);
    }
  }

  lemma {:induction false} UnwrappedRing(events: seq<Event>, n: nat)
    requires 0 < n <= |events| && n <= DATA_LENGTH && forall k | 0 <= k < n :: events[k].Received?
    requires AllValid(History(events, n))
    ensures |History(events, n)| == n && Run(events, n).Some?
    ensures InArrayOrder(Run(events, n).value) && Recency(Run(events, n).value) == History(events, n)
  {
    AddsKeepTheLast(events, n);
    assert ListRun(events, n) == History(events, n);
    RingRefinesList(events, n);
    NextSlot(events, n);
    UnwrappedIfFew(Run(events, n).value, History(events, n));
  }

  /** Up to 100 blocks, forks included. */
  lemma {:induction false} GapReportWithForks(events: seq<Event>, n: nat)
    requires 0 < n <= |events| && n <= DATA_LENGTH && forall k | 0 <= k < n :: events[k].Received?
    requires AllValid(History(events, n)) && ForksRepeat(History(events, n))
    ensures |History(events, n)| == n && Run(events, n).Some?
    ensures ReportOn(WalkOf(Run(events, n).value.slots)) == TrueReport(History(events, n))
  {
    UnwrappedRing(events, n);
    ForksToleratedBeforeWrap(Run(events, n).value);
  }

  // ---------------------------------------------------------------- blocks without a hash

  ghost predicate Unhashed(events: seq<Event>, n: nat)
    requires n <= |events|
  {
    forall k | 0 <= k < n && events[k].Received? :: events[k].block.hash == ""
  }

  ghost predicate NoHash(r: Ring) {
    r.id < DATA_LENGTH == |r.slots| && forall i | 0 <= i < |r.slots| :: r.slots[i].hash == ""
  }

  lemma {:induction false} StaysUnhashed(r: Ring, e: Event)
    requires NoHash(r) && (e.Received? ==> e.block.hash == "")
    ensures RingAfter(r, e).Some? && NoHash(RingAfter(r, e).value)
    ensures e.Tick? ==> RingAfter(r, e).value == r
  {
    if e.Tick? {
      assert NoneLive(r.slots, DATA_LENGTH, e.now);
    }
  }

  lemma {:induction false} ReportOnBlanks(slots: seq<BlockData>)
    requires |slots| == DATA_LENGTH && forall i | 0 <= i < DATA_LENGTH :: slots[i].hash == ""
    ensures ReportOn(WalkOf(slots)) == Report(1, [])
  {
    assert Scanned(slots) == [slots[0]];
    assert WalkOf(slots) == [slots[0]];
    assert Numbers([slots[0]]) == {slots[0].number};
  }

  /** When no block carries a hash, as the receiver hands them over, every slot counts as empty:
      nothing ever expires, and the report sees one block and no gap, whatever was received. */
  lemma {:induction false} UnhashedBlocksHideGaps(events: seq<Event>, n: nat)
    requires n <= |events| && Unhashed(events, n)
    ensures Run(events, n).Some? && NoHash(Run(events, n).value)
    ensures n > 0 && events[n - 1].Tick? ==> Run(events, n) == Run(events, n - 1)
    ensures ReportOn(WalkOf(Run(events, n).value.slots)) == Report(1, [])
  {
    if n > 0 {
      UnhashedBlocksHideGaps(events, n - 1);
      StaysUnhashed(Run(events, n - 1).value, events[n - 1]);
    }
    ReportOnBlanks(Run(events, n).value.slots);
  }
}
