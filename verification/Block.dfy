/** The records the block recorder stores and the inputs it reacts to. */
module Block {
  import opened Clock

  /** `dataLength`: the number of slots in the ring. */
  const DATA_LENGTH: nat := 100

  datatype Option<+T> = None | Some(value: T)

  datatype BlockData = BlockData(hash: string, number: nat, generateTime: int, receivedTime: int)

  /** The zero value of a slot. */
  const NO_BLOCK: BlockData := BlockData("", 0, ZERO_TIME, ZERO_TIME)

  predicate IsEmpty(b: BlockData) {
    b.number == 0 || b.hash == ""
  }

  /** One input of the recorder: a block broadcast, already stamped with its receive time,
      or a tick of the periodic remover at time `now`. */
  datatype Event = Received(block: BlockData) | Tick(now: int)

  /** The blocks received among the first `n` events. */
  function History(events: seq<Event>, n: nat): (h: seq<BlockData>)
    requires n <= |events|
    ensures |h| <= n
  {
    if n == 0 then []
    else if events[n - 1].Received? then History(events, n - 1) + [events[n - 1].block]
    else History(events, n - 1)
  }

  /** Every block carries a number and a hash. */
  ghost predicate AllValid(h: seq<BlockData>) {
    forall i | 0 <= i < |h| :: h[i].number > 0 && h[i].hash != ""
  }

  /** Receive times do not decrease along `h`. */
  ghost predicate TimeOrdered(h: seq<BlockData>) {
    forall i, j | 0 <= i < j < |h| :: h[i].receivedTime <= h[j].receivedTime
  }

  /** Block numbers do not decrease along `h`; ties are allowed. */
  ghost predicate NumberOrdered(h: seq<BlockData>) {
    forall i, j | 0 <= i < j < |h| :: h[i].number <= h[j].number
  }

  ghost predicate IsSuffix<T>(l: seq<T>, h: seq<T>) {
    |l| <= |h| && h[|h| - |l|..] == l
  }

  lemma {:induction false} HistoryStep(events: seq<Event>, n: nat)
    requires 0 < n <= |events|
    ensures AllValid(History(events, n)) ==> AllValid(History(events, n - 1))
    ensures TimeOrdered(History(events, n)) ==> TimeOrdered(History(events, n - 1))
    ensures NumberOrdered(History(events, n)) ==> NumberOrdered(History(events, n - 1))
  {
    var h, h' := History(events, n - 1), History(events, n);
    assert forall i | 0 <= i < |h| :: h[i] == h'[i];
  }

  lemma {:induction false} HistoryPrefix(events: seq<Event>, m: nat, n: nat)
    requires m <= n <= |events|
    ensures AllValid(History(events, n)) ==> AllValid(History(events, m))
    ensures TimeOrdered(History(events, n)) ==> TimeOrdered(History(events, m))
  {
    if m < n {
      HistoryStep(events, n);
      HistoryPrefix(events, m, n - 1);
    }
  }
}
