/** The summary of the block recorder, and when it asks for a notification. */
module BlocksSummary {
  import opened ForkTrace

  datatype LongConfirm = LongConfirm(blockNumber: nat, expiredAt: int, period: int, reported: bool)

  /** The summary's fields as a value. */
  datatype Stat = Stat(longConfirms: seq<LongConfirm>, forks: seq<Fork>, missing: seq<nat>)

  /** The entries not reported yet, marked as reported. */
  function Unreported(l: seq<LongConfirm>): (r: seq<LongConfirm>)
    ensures forall c | c in r :: c.reported
    ensures r == [] <==> forall c | c in l :: c.reported
  {
    if l == [] then []
    else Unreported(l[..|l| - 1]) + (if l[|l| - 1].reported then [] else [l[|l| - 1].(reported := true)])
  }

  /** `r` holds what `l` has not reported yet: its entries are those of `l` at the ascending positions
      `at`, which are all the unreported ones, with nothing changed but the mark. */
  ghost predicate Picks(l: seq<LongConfirm>, r: seq<LongConfirm>, at: seq<nat>) {
    && |at| == |r|
    && (forall i | 0 <= i < |at| :: at[i] < |l| && !l[at[i]].reported)
    && (forall i | 0 <= i < |at| ::
          r[i] == LongConfirm(l[at[i]].blockNumber, l[at[i]].expiredAt, l[at[i]].period, true))
    && (forall i, j | 0 <= i < j < |at| :: at[i] < at[j])
    && (forall k: nat | k < |l| && !l[k].reported :: k in at)
  }

  /** `r` is the unreported part of `l`, in order and marked. */
  ghost predicate MarksUnreported(l: seq<LongConfirm>, r: seq<LongConfirm>) {
    exists at :: Picks(l, r, at)
  }

  lemma {:induction false} PicksSkip(l: seq<LongConfirm>, r: seq<LongConfirm>, at: seq<nat>, c: LongConfirm)
    requires Picks(l, r, at) && c.reported
    ensures Picks(l + [c], r, at)
  {
  }

  lemma {:induction false} PicksTake(l: seq<LongConfirm>, r: seq<LongConfirm>, at: seq<nat>, c: LongConfirm)
    requires Picks(l, r, at) && !c.reported
    ensures Picks(l + [c], r + [c.(reported := true)], at + [|l|])
  {
    forall k: nat | k < |l + [c]| && !(l + [c])[k].reported ensures k in at + [|l|] {
      if k < |l| {
        assert !l[k].reported;
      }
    }
  }

  lemma {:induction false} UnreportedPicks(l: seq<LongConfirm>) returns (at: seq<nat>)
    ensures Picks(l, Unreported(l), at)
  {
    at := [];
    if l != [] {
      var init, c := l[..|l| - 1], l[|l| - 1];
      at := UnreportedPicks(init);
      assert l == init + [c];
      if c.reported {
        PicksSkip(init, Unreported(init), at, c);
        assert Unreported(l) == Unreported(init);
      } else {
        PicksTake(init, Unreported(init), at, c);
        at := at + [|init|];
      }
    }
  }

  /** The summary after a call of `Valid`. */
  function AfterValid(s: Stat): Stat {
    if s.missing == [] && (Unreported(s.longConfirms) != [] || s.forks != [])
    then s.(longConfirms := Unreported(s.longConfirms))
    else s
  }

  predicate IsValid(s: Stat) {
    s.missing == [] && s.forks == [] && Unreported(s.longConfirms) == []
  }

  class Summary {
    var blockCount: nat
    var duration: int
    var forks: seq<Fork>
    var longConfirms: seq<LongConfirm>
    var missingBlocks: seq<nat>

    ghost function State(): Stat
      reads this
    {
      Stat(longConfirms, forks, missingBlocks)
    }

    constructor (blockCount: nat, duration: int, forks: seq<Fork>, longConfirms: seq<LongConfirm>,
                 missingBlocks: seq<nat>)
      ensures State() == Stat(longConfirms, forks, missingBlocks)
      ensures this.blockCount == blockCount && this.duration == duration
    {
      this.blockCount, this.duration := blockCount, duration;
      this.forks, this.longConfirms, this.missingBlocks := forks, longConfirms, missingBlocks;
    }

    /** `Valid`: a query that also marks the long confirmations it reports. */
    method Valid() returns (ok: bool)
      modifies this`longConfirms
      ensures ok == IsValid(old(State()))
      ensures State() == AfterValid(old(State()))
      ensures ok <==> missingBlocks == [] && forks == [] && forall c | c in old(longConfirms) :: c.reported
      ensures ok || missingBlocks != [] ==> longConfirms == old(longConfirms)
      ensures !ok && missingBlocks == [] ==> MarksUnreported(old(longConfirms), longConfirms)
    {
      var reported: seq<LongConfirm> := [];
      if |longConfirms| == 0 && |forks| == 0 && |missingBlocks| == 0 {
        return true;
      }
      if 0 < |missingBlocks| {
        return false;
      }
      for i := 0 to |longConfirms|
        invariant reported == Unreported(longConfirms[..i])
      {
        assert longConfirms[..i + 1][..i] == longConfirms[..i];
        var c := longConfirms[i];
        if !c.reported {
          c := c.(reported := true);
          reported := reported + [c];
        }
      }
      assert longConfirms[..|longConfirms|] == longConfirms;
      if 0 < |reported| || 0 < |forks| {
        ghost var at := UnreportedPicks(longConfirms);
        assert MarksUnreported(longConfirms, reported);
        longConfirms := reported;
        return false;
      }
      return true;
    }
  }

  /** The summary after `n` calls of `Valid`. */
  function Calls(s: Stat, n: nat): Stat {
    if n == 0 then s else AfterValid(Calls(s, n - 1))
  }

  /** Over any number of calls on one summary: with missing blocks or forks every call asks for a
      notification; otherwise only the first can, and it does exactly when some long confirmation
      has not been reported. */
  lemma {:induction false} NotifiedOnce(s: Stat, n: nat)
    ensures s.missing != [] || s.forks != [] ==> !IsValid(Calls(s, n))
    ensures s.missing == [] && s.forks == [] ==>
              (IsValid(Calls(s, n)) <==> n > 0 || forall c | c in s.longConfirms :: c.reported)
    ensures Calls(s, n).missing == s.missing && Calls(s, n).forks == s.forks
  {
    if n > 0 {
      NotifiedOnce(s, n - 1);
    }
  }
}
