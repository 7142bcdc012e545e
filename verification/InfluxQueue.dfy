/** The queue of points waiting for the database, and the writer that drains it. Adds can happen
    between any two steps of a write, so a write is split where the source takes its lock. */
module InfluxQueue {
  /** A point; `wellFormed` says whether the client library accepts it. */
  datatype Point = Point(id: nat, wellFormed: bool)

  /** The zero value of a point: it has no fields, which the client library refuses. */
  const NO_POINT: Point := Point(0, false)

  predicate AllWellFormed(points: seq<Point>) {
    forall p | p in points :: p.wellFormed
  }

  /** `make` and `copy`: a slice of `n` points filled from the front of `data`. */
  function Copied(data: seq<Point>, n: nat): (points: seq<Point>)
    ensures |points| == n
    ensures n <= |data| ==> points == data[..n]
  {
    if n <= |data| then data[..n] else data + seq(n - |data|, _ => NO_POINT)
  }

  /** The points that arrive before a write, and how its two fallible calls end. */
  datatype Round = Round(arrivals: seq<Point>, batchOk: bool, clientOk: bool)

  function Arrivals(rounds: seq<Round>): seq<Point> {
    if rounds == [] then [] else Arrivals(rounds[..|rounds| - 1]) + rounds[|rounds| - 1].arrivals
  }

  lemma {:induction false} RoundAccount(sent: seq<Point>, data: seq<Point>, start: seq<Point>,
                                        rounds: seq<Round>, round: Round)
    requires sent + data == start + Arrivals(rounds)
    ensures sent + (data + round.arrivals) == start + Arrivals(rounds + [round])
  {
    assert (rounds + [round])[..|rounds|] == rounds;
    assert sent + (data + round.arrivals) == (sent + data) + round.arrivals;
    assert (start + Arrivals(rounds)) + round.arrivals == start + (Arrivals(rounds) + round.arrivals);
  }

  // ---------------------------------------------------------------- the object

  class Influx {
    const ok: bool
    var data: seq<Point>

    constructor (ok: bool)
      ensures this.ok == ok && data == []
    {
      this.ok, data := ok, [];
    }

    method Add(p: Point)
      modifies this
      ensures data == if ok then old(data) + [p] else old(data)
      ensures ok ==> forall phase: Phase ::
                Queue(data, phase, []) == Next(Queue(old(data), phase, []), Step.Add(p))
    {
      if !ok {
        return;
      }
      data := data + [p];
    }

    /** The locked part of `write`: copy what the size snapshot allows for, and truncate. */
    method Drain(size: nat) returns (points: seq<Point>)
      modifies this
      ensures points == Copied(old(data), size) && data == []
      ensures Queue(data, Sending(points), []) == Next(Queue(old(data), Sized(size), []), Step.Drain)
    {
      points := Copied(data, size);
      data := [];
    }

    /** The rest of `write`: build the batch and send it; on any error the points go back. */
    method Send(points: seq<Point>, clientOk: bool) returns (sent: seq<Point>)
      modifies this
      ensures AllWellFormed(points) && clientOk ==> sent == points && data == old(data)
      ensures !(AllWellFormed(points) && clientOk) ==> sent == [] && data == old(data) + points
      ensures Queue(data, Idle, sent) == Next(Queue(old(data), Sending(points), []), Step.Send(clientOk))
    {
      var batch: seq<Point> := [];
      for i := 0 to |points|
        invariant batch == points[..i] && AllWellFormed(points[..i])
        invariant data == old(data)
      {
        if !points[i].wellFormed {
          data := data + points;
          return [];
        }
        batch := batch + [points[i]];
        assert points[..i + 1] == points[..i] + [points[i]];
      }
      assert points[..|points|] == points;
      if !clientOk {
        data := data + points;
        return [];
      }
      return batch;
    }

    /** `write` when nothing interleaves: everything is sent, or everything stays in order. */
    method Write(batchOk: bool, clientOk: bool) returns (sent: seq<Point>)
      modifies this
      ensures sent + data == old(data)
      ensures batchOk && clientOk && AllWellFormed(old(data)) ==> data == []
      ensures !(batchOk && clientOk && AllWellFormed(old(data))) ==> sent == []
      ensures Queue(data, Idle, sent) == Written(Queue(old(data), Idle, []), batchOk, clientOk)
    {
      if |data| == 0 {
        return [];
      }
      if !batchOk {
        return [];
      }
      var points := Drain(|data|);
      sent := Send(points, clientOk);
    }

    /** `Loop` with its deferred `Close`: in each round points arrive and the timer makes one write;
        a last write follows at shutdown. No point arrives during a write. */
    method Loop(rounds: seq<Round>, last: Round) returns (sent: seq<Point>)
      modifies this
      ensures !ok ==> sent == [] && data == old(data)
      ensures ok ==> sent + data == old(data) + Arrivals(rounds + [last])
      ensures !AllWellFormed(old(data)) ==> sent == []
      ensures ok && last.batchOk && last.clientOk && AllWellFormed(old(data) + Arrivals(rounds + [last]))
              ==> data == []
    {
      sent := [];
      if !ok {
        return;
      }
      for i := 0 to |rounds|
        invariant sent + data == old(data) + Arrivals(rounds[..i])
        invariant !AllWellFormed(old(data)) ==> sent == []
      {
        assert forall p | p in old(data) :: p in old(data) + Arrivals(rounds[..i]);
        ghost var sent0, data0 := sent, data;
        var more := RunRound(rounds[i]);
        sent := sent + more;
        RoundAccount(sent0, data0, old(data), rounds[..i], rounds[i]);
        assert rounds[..i + 1] == rounds[..i] + [rounds[i]];
        assert sent + data == sent0 + (more + data);
      }
      assert rounds[..|rounds|] == rounds;
      assert forall p | p in old(data) :: p in old(data) + Arrivals(rounds);
      ghost var sent0, data0 := sent, data;
      var more := RunRound(last);
      sent := sent + more;
      RoundAccount(sent0, data0, old(data), rounds, last);
      assert sent + data == sent0 + (more + data);
      assert forall p | p in data0 + last.arrivals :: p in sent0 + (data0 + last.arrivals);
    }

    /** One turn of the loop: arrivals, then a write. */
    method RunRound(round: Round) returns (sent: seq<Point>)
      requires ok
      modifies this
      ensures sent + data == old(data) + round.arrivals
      ensures round.batchOk && round.clientOk && AllWellFormed(old(data) + round.arrivals) ==> data == []
      ensures !AllWellFormed(old(data)) ==> sent == []
    {
      for i := 0 to |round.arrivals|
        invariant data == old(data) + round.arrivals[..i]
      {
        Add(round.arrivals[i]);
      }
      assert forall p | p in old(data) :: p in old(data) + round.arrivals;
      sent := Write(round.batchOk, round.clientOk);
    }
  }

  // ---------------------------------------------------------------- the protocol

  /** Where the one writer stands: before a write, past the emptiness test and the batch header,
      past the size snapshot, or with points in hand. */
  datatype Phase = Idle | Checked | Sized(size: nat) | Sending(points: seq<Point>)

  datatype Queue = Queue(pending: seq<Point>, phase: Phase, delivered: seq<Point>)

  datatype Step = Add(p: Point) | Check(batchOk: bool) | Size | Drain | Send(clientOk: bool)

  const EMPTY: Queue := Queue([], Idle, [])

  predicate Enabled(q: Queue, step: Step) {
    match step
    case Add(_) => true
    case Check(_) => q.phase.Idle?
    case Size => q.phase.Checked?
    case Drain => q.phase.Sized?
    case Send(_) => q.phase.Sending?
  }

  function Next(q: Queue, step: Step): Queue
    requires Enabled(q, step)
  {
    match step
    case Add(p) => q.(pending := q.pending + [p])
    case Check(batchOk) => if q.pending != [] && batchOk then q.(phase := Checked) else q
    case Size => q.(phase := Sized(|q.pending|))
    case Drain => q.(pending := [], phase := Sending(Copied(q.pending, q.phase.size)))
    case Send(clientOk) =>
      var points := q.phase.points;
      if AllWellFormed(points) && clientOk
      then q.(phase := Idle, delivered := q.delivered + points)
      else q.(phase := Idle, pending := q.pending + points)
  }

  /** A write with no step of anyone else in between. */
  ghost function Written(q: Queue, batchOk: bool, clientOk: bool): Queue
    requires q.phase.Idle?
  {
    var checked := Next(q, Check(batchOk));
    if checked.phase.Checked? then Next(Next(Next(checked, Size), Drain), Send(clientOk)) else checked
  }

  /** The steps can be taken one after the other from `q`. */
  ghost predicate Runs(q: Queue, steps: seq<Step>, n: nat)
    requires n <= |steps|
    decreases n, 0
  {
    n == 0 || (Runs(q, steps, n - 1) && Enabled(Run(q, steps, n - 1), steps[n - 1]))
  }

  ghost function Run(q: Queue, steps: seq<Step>, n: nat): Queue
    requires n <= |steps| && Runs(q, steps, n)
    decreases n, 1
  {
    if n == 0 then q else Next(Run(q, steps, n - 1), steps[n - 1])
  }

  /** What every reachable queue keeps: one writer never counts more than there is, and never
      takes an empty batch. */
  ghost predicate Consistent(q: Queue) {
    match q.phase
    case Idle => true
    case Checked => q.pending != []
    case Sized(size) => 0 < size <= |q.pending|
    case Sending(points) => points != []
  }

  lemma {:induction false} StepKeepsConsistent(q: Queue, step: Step)
    requires Consistent(q) && Enabled(q, step)
    ensures Consistent(Next(q, step))
  {
    if step.Drain? {
      assert |Copied(q.pending, q.phase.size)| == q.phase.size;
    }
  }

  lemma {:induction false} ReachableIsConsistent(q: Queue, steps: seq<Step>, n: nat)
    requires n <= |steps| && Runs(q, steps, n) && Consistent(q)
    ensures Consistent(Run(q, steps, n))
  {
    if n > 0 {
      ReachableIsConsistent(q, steps, n - 1);
      StepKeepsConsistent(Run(q, steps, n - 1), steps[n - 1]);
    }
  }

  ghost function InFlight(q: Queue): seq<Point> {
    if q.phase.Sending? then q.phase.points else []
  }

  // ---------------------------------------------------------------- what the steps say by themselves

  /** All points added. */
  function Added(steps: seq<Step>, n: nat): multiset<Point>
    requires n <= |steps|
  {
    if n == 0 then multiset{}
    else Added(steps, n - 1) + Entered(steps[n - 1])
  }

  /** The points added since the last size snapshot. */
  function SinceSize(steps: seq<Step>, n: nat): seq<Point>
    requires n <= |steps|
  {
    if n == 0 || steps[n - 1].Size? then []
    else SinceSize(steps, n - 1) + (if steps[n - 1].Add? then [steps[n - 1].p] else [])
  }

  /** The points added between a size snapshot and the drain that follows it. */
  function InWindow(steps: seq<Step>, n: nat): multiset<Point>
    requires n <= |steps|
  {
    if n == 0 then multiset{}
    else InWindow(steps, n - 1)
         + (if steps[n - 1].Drain? then multiset(SinceSize(steps, n - 1)) else multiset{})
  }

  /** No point is added between a size snapshot and its drain. */
  ghost predicate QuietWindows(steps: seq<Step>, n: nat)
    requires n <= |steps|
  {
    forall k | 0 <= k < n && steps[k].Drain? :: SinceSize(steps, k) == []
  }

  /** Past the snapshot, the queue is what was counted and what came since. */
  lemma {:induction false} SizedWindow(steps: seq<Step>, n: nat)
    requires n <= |steps| && Runs(EMPTY, steps, n) && Run(EMPTY, steps, n).phase.Sized?
    ensures var q := Run(EMPTY, steps, n);
            q.phase.size <= |q.pending| && q.pending[q.phase.size..] == SinceSize(steps, n)
  {
    if steps[n - 1].Add? {
      SizedWindow(steps, n - 1);
      var q := Run(EMPTY, steps, n - 1);
      assert (q.pending + [steps[n - 1].p])[q.phase.size..] == q.pending[q.phase.size..] + [steps[n - 1].p];
    }
  }

  /** The points the queue still accounts for. */
  ghost function Accounted(q: Queue): multiset<Point> {
    multiset(q.delivered) + multiset(q.pending) + multiset(InFlight(q))
  }

  /** What a step enters into the account. */
  function Entered(step: Step): multiset<Point> {
    if step.Add? then multiset{step.p} else multiset{}
  }

  /** What a step drops: a drain loses whatever lies beyond the size snapshot. */
  function Dropped(q: Queue, step: Step): multiset<Point>
    requires Enabled(q, step) && (step.Drain? ==> q.phase.size <= |q.pending|)
  {
    if step.Drain? then multiset(q.pending[q.phase.size..]) else multiset{}
  }

  lemma {:induction false} DrainAccount(pending: seq<Point>, n: nat)
    requires n <= |pending|
    ensures multiset(pending) == multiset(Copied(pending, n)) + multiset(pending[n..])
  {
    assert pending == pending[..n] + pending[n..];
  }

  lemma {:induction false} StepAccount(q: Queue, step: Step)
    requires Enabled(q, step) && (step.Drain? ==> q.phase.size <= |q.pending|)
    ensures Accounted(Next(q, step)) + Dropped(q, step) == Accounted(q) + Entered(step)
  {
    match step
    case Add(_) =>
    case Drain => DrainAccount(q.pending, q.phase.size);
    case Send(_) =>
    case _ =>
  }

  /** What a step drops is what it adds to the lost points. */
  lemma {:induction false} WindowStep(steps: seq<Step>, n: nat)
    requires n < |steps| && Runs(EMPTY, steps, n + 1)
    ensures var q, step := Run(EMPTY, steps, n), steps[n];
            && (step.Drain? ==> q.phase.size <= |q.pending|)
            && InWindow(steps, n + 1) == InWindow(steps, n) + Dropped(q, step)
  {
    if steps[n].Drain? {
      SizedWindow(steps, n);
    }
  }

  lemma {:induction false} Balance<T>(added: multiset<T>, account: multiset<T>, lost: multiset<T>,
                                      entered: multiset<T>, account': multiset<T>, dropped: multiset<T>)
    requires added == account + lost && account' + dropped == account + entered
    ensures added + entered == account' + (lost + dropped)
  {
    assert (account + lost) + entered == (account + entered) + lost;
    assert (account' + dropped) + lost == account' + (lost + dropped);
  }

  /** The points added are those accounted for and those added between a size snapshot and its drain. */
  ghost predicate Balanced(steps: seq<Step>, n: nat)
    requires n <= |steps| && Runs(EMPTY, steps, n)
  {
    Added(steps, n) == Accounted(Run(EMPTY, steps, n)) + InWindow(steps, n)
  }

  lemma {:induction false} BalancedAtStart(steps: seq<Step>)
    requires Runs(EMPTY, steps, 0)
    ensures Balanced(steps, 0)
  {
  }

  lemma {:induction false} StepBalance(steps: seq<Step>, n: nat, account: multiset<Point>, account': multiset<Point>)
    requires n < |steps| && Runs(EMPTY, steps, n + 1)
    requires Added(steps, n) == account + InWindow(steps, n)
    requires steps[n].Drain? ==> Run(EMPTY, steps, n).phase.size <= |Run(EMPTY, steps, n).pending|
    requires account' + Dropped(Run(EMPTY, steps, n), steps[n]) == account + Entered(steps[n])
    requires InWindow(steps, n + 1) == InWindow(steps, n) + Dropped(Run(EMPTY, steps, n), steps[n])
    ensures Added(steps, n + 1) == account' + InWindow(steps, n + 1)
  {
    Balance(Added(steps, n), account, InWindow(steps, n), Entered(steps[n]), account',
            Dropped(Run(EMPTY, steps, n), steps[n]));
  }

  lemma {:induction false} BalanceStep(steps: seq<Step>, n: nat)
    requires n < |steps| && Runs(EMPTY, steps, n + 1) && Balanced(steps, n)
    ensures Balanced(steps, n + 1)
  {
    var q := Run(EMPTY, steps, n);
    WindowStep(steps, n);
    StepAccount(q, steps[n]);
    StepBalance(steps, n, Accounted(q), Accounted(Next(q, steps[n])));
  }

  /** Main result: in every reachable state, under any interleaving and however many writes fail,
      every point added is delivered, pending, in flight, or was added between a size snapshot and
      its drain; those last points are gone. */
  lemma {:induction false} Conservation(steps: seq<Step>, n: nat)
    requires n <= |steps| && Runs(EMPTY, steps, n)
    ensures Balanced(steps, n)
  {
    if n == 0 {
      BalancedAtStart(steps);
    } else {
      Conservation(steps, n - 1);
      BalanceStep(steps, n - 1);
    }
  }

  /** Nothing is delivered more often than it was added. */
  lemma {:induction false} NoDuplicates(steps: seq<Step>, n: nat)
    requires n <= |steps| && Runs(EMPTY, steps, n)
    ensures multiset(Run(EMPTY, steps, n).delivered) <= Added(steps, n)
  {
    Conservation(steps, n);
  }

  /** Nothing is lost if and only if no point is added between a size snapshot and its drain. */
  lemma {:induction false} NothingLostIff(steps: seq<Step>, n: nat)
    requires n <= |steps| && Runs(EMPTY, steps, n)
    ensures Added(steps, n) == Accounted(Run(EMPTY, steps, n)) <==> QuietWindows(steps, n)
  {
    Conservation(steps, n);
    WindowEmptyIff(steps, n);
    assert |Added(steps, n)| == |Accounted(Run(EMPTY, steps, n))| + |InWindow(steps, n)|;
  }

  lemma {:induction false} NoneInEmpty<T>(s: seq<T>, m: multiset<T>)
    ensures m + multiset(s) == multiset{} <==> m == multiset{} && s == []
  {
    assert |m + multiset(s)| == |m| + |s|;
  }

  lemma {:induction false} WindowEmptyIff(steps: seq<Step>, n: nat)
    requires n <= |steps|
    ensures InWindow(steps, n) == multiset{} <==> QuietWindows(steps, n)
  {
    if n > 0 {
      WindowEmptyIff(steps, n - 1);
      NoneInEmpty(SinceSize(steps, n - 1), InWindow(steps, n - 1));
      NoneInEmpty([], InWindow(steps, n - 1));
    }
  }

  /** The smallest run that loses a point: it is added between the snapshot and the drain. */
  lemma {:induction false} LossyRun(p: Point, late: Point)
    ensures var steps := [Add(p), Check(true), Size, Add(late), Drain];
            && Runs(EMPTY, steps, 5)
            && Run(EMPTY, steps, 5) == Queue([], Sending([p]), []) && late in InWindow(steps, 5)
  {
    var steps := [Add(p), Check(true), Size, Add(late), Drain];
    assert Runs(EMPTY, steps, 0) && Runs(EMPTY, steps, 1) && Runs(EMPTY, steps, 2);
    assert Run(EMPTY, steps, 2) == Queue([p], Checked, []);
    assert Runs(EMPTY, steps, 3) && Runs(EMPTY, steps, 4);
    assert Run(EMPTY, steps, 4) == Queue([p, late], Sized(1), []);
    assert Runs(EMPTY, steps, 5);
    assert [p, late][..1] == [p];
    assert SinceSize(steps, 3) == [] && SinceSize(steps, 4) == [late];
    assert InWindow(steps, 5) == InWindow(steps, 4) + multiset([late]);
  }

  // ---------------------------------------------------------------- a point the client refuses

  /** The next batch to be sent holds a refused point: the batch in flight, the points the size
      snapshot allows for, or all that is pending. */
  ghost predicate Stuck(q: Queue) {
    match q.phase
    case Idle => !AllWellFormed(q.pending)
    case Checked => !AllWellFormed(q.pending)
    case Sized(size) => !AllWellFormed(Copied(q.pending, size))
    case Sending(points) => !AllWellFormed(points)
  }

  lemma {:induction false} StuckStep(q: Queue, step: Step)
    requires Consistent(q) && Stuck(q) && Enabled(q, step)
    ensures Stuck(Next(q, step)) && Next(q, step).delivered == q.delivered
  {
    match step
    case Add(p) =>
      assert forall x | x in q.pending :: x in q.pending + [p];
      assert q.phase.Sized? ==> (q.pending + [p])[..q.phase.size] == q.pending[..q.phase.size];
    case Size =>
      assert q.pending[..|q.pending|] == q.pending;
    case Send(_) =>
      assert forall x | x in q.phase.points :: x in q.pending + q.phase.points;
    case _ =>
  }

  /** A refused point in the next batch stops the queue for good: nothing at all is delivered any
      more, however often the writer tries and whatever is added. */
  lemma {:induction false} StuckForever(q: Queue, steps: seq<Step>, n: nat)
    requires n <= |steps| && Runs(q, steps, n) && Consistent(q) && Stuck(q)
    ensures Stuck(Run(q, steps, n)) && Run(q, steps, n).delivered == q.delivered
  {
    if n > 0 {
      StuckForever(q, steps, n - 1);
      ReachableIsConsistent(q, steps, n - 1);
      StuckStep(Run(q, steps, n - 1), steps[n - 1]);
    }
  }

  /** No continuation whatsoever delivers anything. */
  ghost predicate NeverDelivers(q: Queue) {
    forall steps: seq<Step>, n: nat | n <= |steps| && Runs(q, steps, n) ::
      Run(q, steps, n).delivered == q.delivered
  }

  /** How a queue that is not stuck gets the next batch out. */
  ghost function WayOut(phase: Phase, p: Point): seq<Step> {
    match phase
    case Idle => [Add(p), Check(true), Size, Drain, Send(true)]
    case Checked => [Size, Drain, Send(true)]
    case Sized(_) => [Drain, Send(true)]
    case Sending(_) => [Send(true)]
  }

  lemma {:induction false} SendingDelivers(q: Queue, steps: seq<Step>, k: nat)
    requires k + 1 == |steps| && steps[k] == Send(true) && Runs(q, steps, k)
    requires var s := Run(q, steps, k);
             s.phase.Sending? && s.phase.points != [] && AllWellFormed(s.phase.points) && s.delivered == q.delivered
    ensures Runs(q, steps, k + 1) && Run(q, steps, k + 1).delivered != q.delivered
  {
    assert |Run(q, steps, k + 1).delivered| > |q.delivered|;
  }

  lemma {:induction false} SizedDelivers(q: Queue, steps: seq<Step>, k: nat)
    requires k + 2 == |steps| && steps[k] == Drain && steps[k + 1] == Send(true) && Runs(q, steps, k)
    requires var s := Run(q, steps, k);
             s.phase.Sized? && s.phase.size > 0 && AllWellFormed(Copied(s.pending, s.phase.size))
             && s.delivered == q.delivered
    ensures Runs(q, steps, k + 2) && Run(q, steps, k + 2).delivered != q.delivered
  {
    assert Runs(q, steps, k + 1);
    SendingDelivers(q, steps, k + 1);
  }

  lemma {:induction false} CheckedDelivers(q: Queue, steps: seq<Step>, k: nat)
    requires k + 3 == |steps| && steps[k] == Size && steps[k + 1] == Drain && steps[k + 2] == Send(true)
    requires Runs(q, steps, k)
    requires var s := Run(q, steps, k);
             s.phase.Checked? && s.pending != [] && AllWellFormed(s.pending) && s.delivered == q.delivered
    ensures Runs(q, steps, k + 3) && Run(q, steps, k + 3).delivered != q.delivered
  {
    var s := Run(q, steps, k);
    assert s.pending[..|s.pending|] == s.pending;
    assert Runs(q, steps, k + 1);
    SizedDelivers(q, steps, k + 1);
  }

  lemma {:induction false} IdleDelivers(q: Queue, p: Point)
    requires q.phase.Idle? && AllWellFormed(q.pending) && p.wellFormed
    ensures var steps := WayOut(Idle, p); Runs(q, steps, 5) && Run(q, steps, 5).delivered != q.delivered
  {
    var steps := WayOut(Idle, p);
    assert Runs(q, steps, 0) && Runs(q, steps, 1) && Runs(q, steps, 2);
    CheckedDelivers(q, steps, 2);
  }

  /** A queue that is not stuck can deliver. */
  lemma {:induction false} UnstuckDelivers(q: Queue, p: Point)
    requires Consistent(q) && !Stuck(q) && p.wellFormed
    ensures var steps := WayOut(q.phase, p);
            Runs(q, steps, |steps|) && Run(q, steps, |steps|).delivered != q.delivered
  {
    var steps := WayOut(q.phase, p);
    assert Runs(q, steps, 0);
    match q.phase
    case Idle => IdleDelivers(q, p);
    case Checked => CheckedDelivers(q, steps, 0);
    case Sized(_) => SizedDelivers(q, steps, 0);
    case Sending(_) => SendingDelivers(q, steps, 0);
  }

  /** Main result: in any state a run can reach, no continuation whatsoever delivers anything if and
      only if the next batch to be sent holds a refused point. */
  lemma {:induction false} StuckIff(q: Queue)
    requires Consistent(q)
    ensures NeverDelivers(q) <==> Stuck(q)
  {
    if Stuck(q) {
      forall steps: seq<Step>, n: nat | n <= |steps| && Runs(q, steps, n)
        ensures Run(q, steps, n).delivered == q.delivered
      {
        StuckForever(q, steps, n);
      }
    } else {
      UnstuckDelivers(q, Point(1, true));
    }
  }

  // ---------------------------------------------------------------- order

  /** The points added, in order. */
  function AddedInOrder(steps: seq<Step>, n: nat): seq<Point>
    requires n <= |steps|
  {
    if n == 0 then []
    else AddedInOrder(steps, n - 1) + (if steps[n - 1].Add? then [steps[n - 1].p] else [])
  }

  /** Every point is accepted and every write of a batch succeeds. */
  ghost predicate NoFailure(steps: seq<Step>, n: nat)
    requires n <= |steps|
  {
    forall k | 0 <= k < n ::
      (steps[k].Add? ==> steps[k].p.wellFormed) && (steps[k].Send? ==> steps[k].clientOk)
  }

  lemma {:induction false} AddedAreAccepted(steps: seq<Step>, n: nat)
    requires n <= |steps| && NoFailure(steps, n)
    ensures AllWellFormed(AddedInOrder(steps, n))
  {
    if n > 0 {
      AddedAreAccepted(steps, n - 1);
    }
  }

  /** All points of a queue, the oldest first. */
  ghost function InOrder(q: Queue): seq<Point> {
    q.delivered + InFlight(q) + q.pending
  }

  lemma {:induction false} StepKeepsOrder(q: Queue, step: Step)
    requires Enabled(q, step) && (step.Send? ==> step.clientOk)
    requires step.Drain? ==> q.phase.size == |q.pending|
    requires AllWellFormed(InFlight(q))
    ensures InOrder(Next(q, step)) == InOrder(q) + (if step.Add? then [step.p] else [])
  {
  }

  /** First in, first out: with quiet windows and no failure, the delivered points, those in flight
      and the pending ones are the added points in the order of their arrival. */
  lemma {:induction false} FirstInFirstOut(steps: seq<Step>, n: nat)
    requires n <= |steps| && Runs(EMPTY, steps, n) && QuietWindows(steps, n) && NoFailure(steps, n)
    ensures InOrder(Run(EMPTY, steps, n)) == AddedInOrder(steps, n)
  {
    if n > 0 {
      FirstInFirstOut(steps, n - 1);
      AddedAreAccepted(steps, n - 1);
      var q := Run(EMPTY, steps, n - 1);
      assert forall p | p in InFlight(q) :: p in InOrder(q);
      if steps[n - 1].Drain? {
        SizedWindow(steps, n - 1);
      }
      StepKeepsOrder(q, steps[n - 1]);
    }
  }

  /** A failed write ends that order: its points go back behind the one that came during it. */
  lemma {:induction false} FailureReorders(p: Point, late: Point)
    ensures var steps := [Add(p), Check(true), Size, Drain, Add(late), Send(false)];
            Runs(EMPTY, steps, 6) && Run(EMPTY, steps, 6) == Queue([late, p], Idle, [])
  {
    var steps := [Add(p), Check(true), Size, Drain, Add(late), Send(false)];
    assert Runs(EMPTY, steps, 0) && Runs(EMPTY, steps, 1) && Runs(EMPTY, steps, 2) && Runs(EMPTY, steps, 3);
    assert Run(EMPTY, steps, 3) == Queue([p], Sized(1), []);
    assert Runs(EMPTY, steps, 4) && Runs(EMPTY, steps, 5) && Runs(EMPTY, steps, 6);
    assert Run(EMPTY, steps, 4) == Queue([], Sending([p]), []);
    assert Run(EMPTY, steps, 5) == Queue([late], Sending([p]), []);
  }

  /** What has been delivered stays delivered, in front of what follows, whatever fails. */
  lemma {:induction false} DeliveredGrows(q: Queue, steps: seq<Step>, m: nat, n: nat)
    requires m <= n <= |steps| && Runs(q, steps, n) && Runs(q, steps, m)
    ensures Run(q, steps, m).delivered <= Run(q, steps, n).delivered
  {
    if m < n {
      DeliveredGrows(q, steps, m, n - 1);
    }
  }

  /** Only points the client accepts are ever delivered. */
  lemma {:induction false} DeliveredAreWellFormed(steps: seq<Step>, n: nat)
    requires n <= |steps| && Runs(EMPTY, steps, n)
    ensures AllWellFormed(Run(EMPTY, steps, n).delivered)
  {
    if n > 0 {
      DeliveredAreWellFormed(steps, n - 1);
    }
  }
}
