/** The budget and the ranked queue of `libp2p/rankeddial.nim`. */
module DialQueue {
  import opened Basics
  import opened DialCandidate

  /** What the scheduler sees of a candidate: the key that identifies the dial, and its rank. */
  datatype Candidate = Candidate(key: string, rank: DialRank)

  function Keys(cs: seq<Candidate>): set<string> {
    set c | c in cs :: c.key
  }

  predicate DistinctKeys(cs: seq<Candidate>) {
    forall i, j :: 0 <= i < j < |cs| ==> cs[i].key != cs[j].key
  }

  /** The candidates of `cs` that come first under a key not in `seen`. */
  function Fresh(cs: seq<Candidate>, seen: set<string>): seq<Candidate> {
    if cs == [] then []
    else if cs[0].key in seen then Fresh(cs[1..], seen)
    else [cs[0]] + Fresh(cs[1..], seen + {cs[0].key})
  }

  lemma {:induction false} KeysCons(c: Candidate, cs: seq<Candidate>)
    ensures Keys([c] + cs) == {c.key} + Keys(cs)
    ensures DistinctKeys([c] + cs) <==> c.key !in Keys(cs) && DistinctKeys(cs)
  {
    var all := [c] + cs;
    assert forall j :: 0 <= j < |cs| ==> all[j + 1] == cs[j] && cs[j].key in Keys(cs);
    assert all[1..] == cs;
  }

  lemma {:induction false} FreshKeys(cs: seq<Candidate>, seen: set<string>)
    ensures var f := Fresh(cs, seen);
      DistinctKeys(f) && Keys(f) !! seen && Keys(f) + seen == Keys(cs) + seen
  {
    if cs != [] {
      var key, tail := cs[0].key, cs[1..];
      assert cs == [cs[0]] + tail;
      KeysCons(cs[0], tail);
      KeysCons(cs[0], Fresh(tail, seen + {key}));
      hide Keys, DistinctKeys;
      if key in seen {
        FreshKeys(tail, seen);
      } else {
        FreshKeys(tail, seen + {key});
      }
    }
  }

  datatype Budget = Budget(left: nat, seen: set<string>)

  function Min(a: int, b: int): int {
    if a < b then a else b
  }

  function Taken(b: Budget, cs: seq<Candidate>): seq<Candidate> {
    var unseen := Fresh(cs, b.seen);
    unseen[..Min(b.left, |unseen|)]
  }

  function Spent(b: Budget, cs: seq<Candidate>): Budget {
    Budget(b.left - |Taken(b, cs)|, b.seen + Keys(cs))
  }

  /** A shared budget takes at most what is left, nothing twice, and remembers every key it saw. */
  lemma {:induction false} TakenOnce(b: Budget, cs: seq<Candidate>)
    ensures DistinctKeys(Taken(b, cs)) && Keys(Taken(b, cs)) !! b.seen
    ensures Keys(Taken(b, cs)) <= Spent(b, cs).seen
    ensures Spent(b, cs).left + |Taken(b, cs)| == b.left
    ensures Spent(b, cs).left > 0 ==> Keys(Taken(b, cs)) + b.seen == Keys(cs) + b.seen
  {
    var unseen := Fresh(cs, b.seen);
    FreshKeys(cs, b.seen);
    assert Keys(Taken(b, cs)) <= Keys(unseen);
    assert |Taken(b, cs)| == |unseen| ==> Taken(b, cs) == unseen;
  }

  lemma {:induction false} NoKeys()
    ensures Keys([]) == {}
  {
  }

  lemma {:induction false} NoneFresh(seen: set<string>)
    ensures Fresh([], seen) == []
  {
  }

  lemma {:induction false} FreshStep(cs: seq<Candidate>, i: nat, seen: set<string>)
    requires i < |cs|
    ensures Fresh(cs[i..], seen) ==
            if cs[i].key in seen then Fresh(cs[i + 1..], seen)
            else [cs[i]] + Fresh(cs[i + 1..], seen + {cs[i].key})
  {
    assert cs[i..][1..] == cs[i + 1..];
  }

  lemma {:induction false} KeysStep(cs: seq<Candidate>, i: nat)
    requires i < |cs|
    ensures Keys(cs[..i + 1]) == Keys(cs[..i]) + {cs[i].key}
  {
    assert cs[..i + 1] == cs[..i] + [cs[i]];
  }

  /** `DialBudget`. */
  class DialBudget {
    var left: nat
    var seen: set<string>
    var exhausted: bool

    ghost predicate Valid()
      reads this
    {
      exhausted <==> left == 0
    }

    function View(): Budget
      reads this
    {
      Budget(left, seen)
    }

    constructor (limit: int)
      ensures Valid() && View() == Budget(if limit < 0 then 0 else limit, {})
    {
      left := if limit < 0 then 0 else limit;
      seen := {};
      exhausted := limit <= 0;
    }

    /** `take`. */
    method Take(candidates: seq<Candidate>) returns (taken: seq<Candidate>)
      requires Valid()
      modifies this
      ensures Valid()
      ensures taken == Taken(old(View()), candidates) && View() == Spent(old(View()), candidates)
    {
      hide Fresh, Keys;
      var unseen: seq<Candidate> := [];
      NoKeys();
      assert candidates[0..] == candidates;
      for i := 0 to |candidates|
        invariant left == old(left) && exhausted == old(exhausted)
        invariant seen == old(seen) + Keys(candidates[..i])
        invariant unseen + Fresh(candidates[i..], seen) == Fresh(candidates, old(seen))
      {
        var key := candidates[i].key;
        FreshStep(candidates, i, seen);
        KeysStep(candidates, i);
        if key !in seen {
          Assoc(unseen, [candidates[i]], Fresh(candidates[i + 1..], seen + {key}));
          seen := seen + {key};
          unseen := unseen + [candidates[i]];
        }
      }
      assert candidates[..|candidates|] == candidates;
      NoneFresh(seen);
      assert candidates[|candidates|..] == [];
      taken := unseen[..Min(left, |unseen|)];
      left := left - |taken|;
      if left == 0 {
        exhausted := true;
      }
    }
  }

  predicate RankSorted(q: seq<Candidate>) {
    forall i, j :: 0 <= i < j < |q| ==> Order(q[i].rank) <= Order(q[j].rank)
  }

  /** `upperBound`: behind everything of the same or a better rank. */
  function UpperBound(q: seq<Candidate>, c: Candidate): (k: nat)
    ensures k <= |q|
    ensures RankSorted(q) ==> (forall i :: 0 <= i < k ==> Order(q[i].rank) <= Order(c.rank))
    ensures forall i :: k <= i < |q| ==> Order(q[i].rank) > Order(c.rank)
  {
    if q == [] then 0
    else if Order(q[|q| - 1].rank) > Order(c.rank) then
      UpperBound(q[..|q| - 1], c)
    else
      assert RankSorted(q) ==> forall i :: 0 <= i < |q| - 1 ==> Order(q[i].rank) <= Order(q[|q| - 1].rank);
      |q|
  }

  function Inserted(q: seq<Candidate>, c: Candidate): seq<Candidate> {
    var k := UpperBound(q, c);
    q[..k] + [c] + q[k..]
  }

  function AllInserted(q: seq<Candidate>, cs: seq<Candidate>): seq<Candidate> {
    if cs == [] then q else Inserted(AllInserted(q, cs[..|cs| - 1]), cs[|cs| - 1])
  }

  /** `sorted(byRank)`, which is stable. */
  function SortedByRank(cs: seq<Candidate>): seq<Candidate> {
    AllInserted([], cs)
  }

  /** The candidates of one rank, in order. */
  function OfRank(q: seq<Candidate>, r: DialRank): seq<Candidate> {
    if q == [] then []
    else OfRank(q[..|q| - 1], r) + (if q[|q| - 1].rank == r then [q[|q| - 1]] else [])
  }

  lemma {:induction false} OfRankAppend(p: seq<Candidate>, q: seq<Candidate>, r: DialRank)
    ensures OfRank(p + q, r) == OfRank(p, r) + OfRank(q, r)
  {
    if q == [] {
      assert p + q == p;
    } else {
      var n := |q| - 1;
      assert (p + q)[..|p + q| - 1] == p + q[..n];
      OfRankAppend(p, q[..n], r);
    }
  }

  lemma {:induction false} OfRankNone(q: seq<Candidate>, r: DialRank)
    requires forall i :: 0 <= i < |q| ==> q[i].rank != r
    ensures OfRank(q, r) == []
  {
    if q != [] {
      OfRankNone(q[..|q| - 1], r);
    }
  }

  lemma {:induction false} OrderInjective(r: DialRank, s: DialRank)
    ensures Order(r) == Order(s) ==> r == s
  {
  }

  /** An insertion keeps the ranks sorted and goes to the back of its own rank only. */
  lemma {:induction false} InsertedIsStable(q: seq<Candidate>, c: Candidate)
    requires RankSorted(q)
    ensures RankSorted(Inserted(q, c)) && |Inserted(q, c)| == |q| + 1
    ensures forall r :: OfRank(Inserted(q, c), r) == OfRank(q, r) + (if c.rank == r then [c] else [])
  {
    var k := UpperBound(q, c);
    forall r ensures OfRank(Inserted(q, c), r) == OfRank(q, r) + (if c.rank == r then [c] else []) {
      InsertedOfRank(q, c, k, r);
    }
  }

  lemma {:induction false} InsertedOfRank(q: seq<Candidate>, c: Candidate, k: nat, r: DialRank)
    requires k <= |q| && forall i :: k <= i < |q| ==> Order(q[i].rank) > Order(c.rank)
    ensures OfRank(q[..k] + [c] + q[k..], r) == OfRank(q, r) + (if c.rank == r then [c] else [])
  {
    hide OfRank, Order;
    OfRankAppend(q[..k] + [c], q[k..], r);
    OfRankAppend(q[..k], [c], r);
    OfRankAppend(q[..k], q[k..], r);
    assert q[..k] + q[k..] == q;
    OfRankOne(c, r);
    if c.rank == r {
      OfRankNone(q[k..], r);
    }
  }

  lemma {:induction false} OfRankOne(c: Candidate, r: DialRank)
    ensures OfRank([c], r) == if c.rank == r then [c] else []
  {
    assert [c][..0] == [];
  }

  /** Late insertions keep the queue stably sorted: within each rank it is first come, first served. */
  lemma {:induction false} AllInsertedIsStable(q: seq<Candidate>, cs: seq<Candidate>)
    requires RankSorted(q)
    ensures RankSorted(AllInserted(q, cs)) && |AllInserted(q, cs)| == |q| + |cs|
    ensures forall r :: OfRank(AllInserted(q, cs), r) == OfRank(q, r) + OfRank(cs, r)
  {
    if cs != [] {
      var n := |cs| - 1;
      AllInsertedIsStable(q, cs[..n]);
      InsertedIsStable(AllInserted(q, cs[..n]), cs[n]);
    }
  }

  lemma {:induction false} OfRankHas(q: seq<Candidate>, i: nat)
    requires i < |q|
    ensures OfRank(q, q[i].rank) != []
  {
    if i < |q| - 1 {
      OfRankHas(q[..|q| - 1], i);
    }
  }

  /** The greatest rank that occurs is that of the last candidate. */
  lemma {:induction false} LastIsGreatest(q: seq<Candidate>, r: DialRank)
    requires RankSorted(q) && OfRank(q, r) != []
    ensures q != [] && Order(r) <= Order(q[|q| - 1].rank)
  {
    if q != [] {
      if i :| 0 <= i < |q| && q[i].rank == r {
      } else {
        OfRankNone(q, r);
      }
    }
  }

  ghost predicate SameRanks(p: seq<Candidate>, q: seq<Candidate>) {
    forall r :: OfRank(p, r) == OfRank(q, r)
  }

  /** Ranked lists with the same candidates in each rank end alike. */
  lemma {:induction false} SameEnd(p: seq<Candidate>, q: seq<Candidate>)
    requires RankSorted(p) && RankSorted(q) && SameRanks(p, q) && p != []
    ensures q != [] && p[|p| - 1] == q[|q| - 1]
  {
    hide OfRank, RankSorted, Order;
    OfRankHas(p, |p| - 1);
    LastIsGreatest(q, p[|p| - 1].rank);
    OfRankHas(q, |q| - 1);
    LastIsGreatest(p, q[|q| - 1].rank);
    OrderInjective(p[|p| - 1].rank, q[|q| - 1].rank);
    LastOfRank(p);
    LastOfRank(q);
  }

  /** There is only one ranked list with given candidates in each rank. */
  lemma {:induction false} RankedUnique(p: seq<Candidate>, q: seq<Candidate>)
    requires RankSorted(p) && RankSorted(q) && SameRanks(p, q)
    ensures p == q
  {
    hide OfRank;
    if p != [] {
      SameEnd(p, q);
      var m, n := |p| - 1, |q| - 1;
      forall r
        ensures OfRank(p[..m], r) == OfRank(q[..n], r)
      {
        WithoutLast(p, r);
        WithoutLast(q, r);
      }
      RankedUnique(p[..m], q[..n]);
      assert p == p[..m] + [p[m]] && q == q[..n] + [q[n]];
    } else if q != [] {
      SameEnd(q, p);
    }
  }

  lemma {:induction false} LastOfRank(q: seq<Candidate>)
    requires q != []
    ensures var last := q[|q| - 1];
            OfRank(q, last.rank) != [] && OfRank(q, last.rank)[|OfRank(q, last.rank)| - 1] == last
  {
  }

  lemma {:induction false} WithoutLast(q: seq<Candidate>, r: DialRank)
    requires q != []
    ensures var all := OfRank(q, r);
            OfRank(q[..|q| - 1], r) == if q[|q| - 1].rank == r && all != [] then all[..|all| - 1] else all
  {
  }

  /** Sorting keeps each rank's candidates in their order. */
  lemma {:induction false} SortedByRankIsStable(cs: seq<Candidate>)
    ensures RankSorted(SortedByRank(cs)) && |SortedByRank(cs)| == |cs|
    ensures forall r :: OfRank(SortedByRank(cs), r) == OfRank(cs, r)
  {
    AllInsertedIsStable([], cs);
    assert forall r :: [] + OfRank(cs, r) == OfRank(cs, r);
  }

  /** It is the only ranked list that does. */
  lemma {:induction false} SortedByRankIff(cs: seq<Candidate>, q: seq<Candidate>)
    ensures q == SortedByRank(cs) <==> RankSorted(q) && SameRanks(q, cs)
  {
    hide RankSorted, OfRank, SortedByRank;
    SortedByRankIsStable(cs);
    if RankSorted(q) && SameRanks(q, cs) {
      RankedUnique(q, SortedByRank(cs));
    }
  }
}
