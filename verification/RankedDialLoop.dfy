/** The loops of `libp2p/rankeddial.nim` over the fields of one dial, proved to make the steps of
    `RankedDial`. */
module RankedDialLoop {
  import opened Basics
  import opened DialQueue
  import opened RankedDial

  class Dial {
    const dialable: DialBudget
    var queued: seq<Candidate>
    var pending: seq<nat>
    var attempts: seq<Attempt>
    var changed: bool
    ghost var arrived: seq<Candidate>

    ghost predicate Valid()
      reads this, dialable
    {
      dialable.Valid() && forall j :: 0 <= j < |pending| ==> pending[j] < |attempts|
    }

    /** The fields of a machine state this object holds, over the rest of `s`. */
    ghost function Over(s: State): State
      reads this, dialable
    {
      s.(dialable := dialable.View(), queued := queued, pending := pending, attempts := attempts,
         changed := changed, arrived := arrived)
    }

    constructor ()
      ensures Valid() && fresh(dialable) && queued == [] && pending == [] && attempts == [] && arrived == []
      ensures dialable.View() == Budget(MAX_DIAL_CANDIDATES, {}) && !changed
    {
      dialable := new DialBudget(MAX_DIAL_CANDIDATES);
      queued, pending, attempts, changed, arrived := [], [], [], false, [];
    }

    /** `queue`. */
    method Queue(candidates: seq<Candidate>, ghost s: State)
      requires Valid()
      modifies this, dialable
      ensures Valid() && Over(s) == Enqueue(old(Over(s)), candidates)
    {
      hide Taken, Spent, SortedByRank, Inserted, OfRank, RankSorted;
      var ranked := Sort(candidates);
      var taken := dialable.Take(ranked);
      ghost var before := queued;
      for i := 0 to |taken|
        invariant dialable.Valid() && dialable.View() == Spent(old(dialable.View()), ranked)
        invariant pending == old(pending) && attempts == old(attempts) && arrived == old(arrived)
        invariant queued == AllInserted(before, taken[..i])
      {
        assert taken[..i + 1][..i] == taken[..i];
        queued := Inserted(queued, taken[i]);
      }
      assert taken[..|taken|] == taken;
      arrived := arrived + taken;
      changed := true;
    }

    /** `openSlots`. */
    method OpenSlotsLoop(expired: bool, ghost s: State)
      requires Valid() && s.expired == expired
      modifies this
      ensures Valid() && Over(s) == OpenSlots(old(Over(s)))
    {
      if expired {
        return;
      }
      while |queued| > 0 && |pending| < MAX_PARALLEL_DIALS
        invariant Valid() && changed == old(changed) && arrived == old(arrived)
        invariant OpenSlots(Over(s)) == OpenSlots(old(Over(s)))
        decreases |queued|
      {
        var candidate := queued[0];
        queued := queued[1..];
        pending := pending + [|attempts|];
        attempts := attempts + [Attempt(candidate, Running)];
      }
    }

    /** `takeWinner`: the scan over a list it deletes from ends. */
    method TakeWinnerLoop() returns (winner: Option<nat>)
      requires Valid()
      modifies this`pending
      ensures Valid()
      ensures (winner, pending) == TakeWinner(attempts, old(pending), 0)
    {
      var i := 0;
      while i < |pending|
        invariant Valid()
        invariant TakeWinner(attempts, pending, i) == TakeWinner(attempts, old(pending), 0)
        decreases |pending| - i
      {
        var attempt := pending[i];
        if attempts[attempt].status.Running? {
          i := i + 1;
          continue;
        }
        pending := SwapDelete(pending, i);
        if attempts[attempt].status.Connected? {
          return Some(attempt);
        }
      }
      winner := None;
    }

    /** One turn of `firstConnected`: the phase it leaves the dial in. */
    method TurnLoop(expired: bool, lookups: int, ghost s: State) returns (phase: Phase)
      requires Valid() && s.expired == expired && s.lookups == lookups && s.phase == Racing
      modifies this
      ensures Valid() && Over(s).(phase := phase) == Iterate(old(Over(s)))
    {
      changed := false;
      ghost var cleared := Over(s);
      var winner := TakeWinnerLoop();
      if winner.Some? {
        return Dropping(winner, false);
      }
      OpenSlotsLoop(expired, s);
      phase := if |pending| == 0 && lookups == 0 then Dropping(None, false) else Racing;
    }
  }

  /** `candidates.sorted(byRank)`. */
  method Sort(candidates: seq<Candidate>) returns (ranked: seq<Candidate>)
    ensures ranked == SortedByRank(candidates)
    ensures RankSorted(ranked) && forall r :: OfRank(ranked, r) == OfRank(candidates, r)
  {
    ranked := [];
    for i := 0 to |candidates|
      invariant ranked == AllInserted([], candidates[..i])
    {
      assert candidates[..i + 1][..i] == candidates[..i];
      ranked := Inserted(ranked, candidates[i]);
    }
    assert candidates[..|candidates|] == candidates;
    SortedByRankIsStable(candidates);
  }
}
