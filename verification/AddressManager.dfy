/** The manager of `libp2p/address_manager.nim`: the loops that change the candidate table in place. */
module AddressManager {
  import opened Basics
  import opened AddressBook

  /** The chain sources of the kept addresses. */
  function FreshSources<A(==,!new)>(produced: map<A, set<Source>>, kept: seq<A>): map<A, set<Source>> {
    map a | a in kept :: ChainOf(produced, a)
  }

  /** What an address has after the first half of `track`: every kept address got its sources. */
  function Given<A(==,!new)>(candidates: map<A, Candidate>, produced: map<A, set<Source>>, kept: seq<A>, a: A): Candidate {
    Candidate(SourcesOf(candidates, a) + if a in kept then ChainOf(produced, a) else {}, StateOf(candidates, a))
  }

  function Added<A(==,!new)>(candidates: map<A, Candidate>, produced: map<A, set<Source>>, kept: seq<A>): map<A, Candidate> {
    map a | a in candidates.Keys + Elements(kept) :: Given(candidates, produced, kept, a)
  }

  /** What withdrawal leaves of an address; those in `todo` are still to be visited. */
  function Withdrawn<A(==,!new)>(c: Candidate, chain: map<A, set<Source>>, now: map<A, set<Source>>, todo: set<A>, a: A): set<Source> {
    if a in todo then c.sources else c.sources - (ChainOf(chain, a) - ChainOf(now, a))
  }

  function WithdrawnAll<A(==,!new)>(
    candidates: map<A, Candidate>, chain: map<A, set<Source>>, now: map<A, set<Source>>, todo: set<A>): map<A, Candidate>
  {
    map a | a in candidates && Withdrawn(candidates[a], chain, now, todo, a) != {} ::
      Candidate(Withdrawn(candidates[a], chain, now, todo, a), candidates[a].state)
  }

  /** The sources an address gains by being added once more. */
  lemma {:induction false} GivenStep<A(!new)>(
    candidates: map<A, Candidate>, produced: map<A, set<Source>>, front: seq<A>, x: A, a: A)
    ensures var was := Given(candidates, produced, front, a);
            Given(candidates, produced, front + [x], a) ==
            if a == x then Candidate(was.sources + ChainOf(produced, x), was.state) else was
  {
    hide SourcesOf, StateOf, ChainOf;
  }

  lemma {:induction false} AddedStep<A(!new)>(
    candidates: map<A, Candidate>, produced: map<A, set<Source>>, front: seq<A>, x: A)
    ensures var was := Added(candidates, produced, front);
            Added(candidates, produced, front + [x]) ==
            was[x := Candidate(SourcesOf(was, x) + ChainOf(produced, x), StateOf(was, x))]
  {
    hide Given, ChainOf;
    var was := Added(candidates, produced, front);
    var now := Added(candidates, produced, front + [x]);
    var next := was[x := Candidate(SourcesOf(was, x) + ChainOf(produced, x), StateOf(was, x))];
    assert Elements(front + [x]) == Elements(front) + {x};
    assert now.Keys == next.Keys;
    forall a | a in now
      ensures now[a] == next[a]
    {
      GivenStep(candidates, produced, front, x, a);
      if a !in candidates && a !in front {
        GivenAbsent(candidates, produced, front, a);
      }
    }
  }

  lemma {:induction false} GivenAbsent<A(!new)>(
    candidates: map<A, Candidate>, produced: map<A, set<Source>>, front: seq<A>, a: A)
    requires a !in candidates && a !in front
    ensures Given(candidates, produced, front, a) == Candidate({}, Unverified)
  {
  }

  lemma {:induction false} FreshStep<A(!new)>(produced: map<A, set<Source>>, front: seq<A>, x: A)
    ensures FreshSources(produced, front + [x]) == FreshSources(produced, front)[x := ChainOf(produced, x)]
  {
  }

  lemma {:induction false} PutAllStep<A(!new)>(order: seq<A>, kept: seq<A>, i: nat)
    requires i <= |kept|
    ensures i < |kept| ==> PutAll(order, kept[..i + 1]) == Put(PutAll(order, kept[..i]), kept[i])
    ensures PutAll(order, []) == order
  {
    if i < |kept| {
      assert kept[..i + 1][..i] == kept[..i];
    }
  }

  /** Withdrawing after adding is one pass over the table. */
  lemma {:induction false} TrackIsPass<A(!new)>(b: Book<A>, produced: map<A, set<Source>>, kept: seq<A>)
    ensures var now := FreshSources(produced, kept);
            WithdrawnAll(Added(b.candidates, produced, kept), b.chain, now, {}) == Passed(b, now, kept).candidates
  {
    hide Only, PutAll, Given, Withdrawn, Remaining;
    var now := FreshSources(produced, kept);
    var added := Added(b.candidates, produced, kept);
    assert b.candidates.Keys + now.Keys == added.Keys;
    forall a | a in added
      ensures Withdrawn(added[a], b.chain, now, {}, a) == Remaining(b, now, a) &&
              added[a].state == StateOf(b.candidates, a)
    {
      TrackLeaves(b, produced, kept, a);
    }
  }

  lemma {:induction false} TrackLeaves<A(!new)>(b: Book<A>, produced: map<A, set<Source>>, kept: seq<A>, a: A)
    ensures var given := Given(b.candidates, produced, kept, a);
            var now := FreshSources(produced, kept);
            Withdrawn(given, b.chain, now, {}, a) == Remaining(b, now, a) && given.state == StateOf(b.candidates, a)
  {
    hide SourcesOf, StateOf;
  }

  /** One address visited: nothing happens unless the chain lost a source of it. */
  lemma {:induction false} WithdrawStep<A(!new)>(
    candidates: map<A, Candidate>, chain: map<A, set<Source>>, now: map<A, set<Source>>, todo: set<A>, a: A)
    requires a in todo && a in candidates && candidates[a].sources != {}
    ensures var was := WithdrawnAll(candidates, chain, now, todo);
            var gone := ChainOf(chain, a) - ChainOf(now, a);
            var left := candidates[a].sources - gone;
            && a in was && was[a] == candidates[a]
            && WithdrawnAll(candidates, chain, now, todo - {a}) ==
               (if gone == {} then was
                else if left == {} then was - {a}
                else was[a := Candidate(left, candidates[a].state)])
  {
    hide ChainOf;
    var gone := ChainOf(chain, a) - ChainOf(now, a);
    if gone == {} {
      assert candidates[a].sources - gone == candidates[a].sources;
    }
  }

  lemma {:induction false} OnlyOnly<A(!new)>(s: seq<A>, k1: set<A>, k2: set<A>)
    requires k2 <= k1
    ensures Only(Only(s, k1), k2) == Only(s, k2)
  {
    if s != [] {
      var front, last := s[..|s| - 1], s[|s| - 1];
      OnlyOnly(front, k1, k2);
      if last in k1 {
        assert (Only(front, k1) + [last])[..|Only(front, k1)|] == Only(front, k1);
      }
    }
  }

  lemma {:induction false} OnlyAll<A(!new)>(s: seq<A>, keep: set<A>)
    requires forall i :: 0 <= i < |s| ==> s[i] in keep
    ensures Only(s, keep) == s
  {
    if s != [] {
      var front := s[..|s| - 1];
      OnlyAll(front, keep);
      assert s == front + [s[|s| - 1]];
    }
  }

  class AddressManager<A(==,!new)> {
    var order: seq<A>
    var candidates: map<A, Candidate>
    var chain: map<A, set<Source>>
    var refuted: seq<Refuted<A>>
    const maxSize: nat

    function Contents(): Book<A>
      reads this
    {
      Book(order, candidates, chain, refuted)
    }

    ghost predicate Valid()
      reads this
    {
      maxSize >= 1 && Inv(Contents(), maxSize)
    }

    /** A size below one is raised to one. */
    constructor (size: int)
      ensures Valid() && Contents() == Book([], map[], map[], [])
      ensures maxSize == if size < 1 then 1 else size
    {
      order, candidates, chain, refuted := [], map[], map[], [];
      maxSize := if size < 1 then 1 else size;
    }

    method AddSources(a: A, sources: set<Source>) returns (isNew: bool)
      requires Distinct(order) && Elements(order) == candidates.Keys
      modifies this`order, this`candidates
      ensures forall x :: x in candidates <==> x in old(candidates) || x == a
      ensures candidates[a] == if a in old(candidates) then Candidate(old(candidates)[a].sources + sources, old(candidates)[a].state)
                               else Candidate(sources, Unverified)
      ensures forall x :: x in old(candidates) && x != a ==> candidates[x] == old(candidates)[x]
      ensures order == if a in old(candidates) then old(order) else old(order) + [a]
      ensures Contents() == AddressBook.AddSources(old(Contents()), a, sources)
      ensures isNew == (a !in old(candidates))
    {
      isNew := a !in candidates;
      assert a in Elements(order) <==> a in candidates.Keys;
      if isNew {
        order := order + [a];
        candidates := candidates[a := Candidate({}, Unverified)];
      }
      candidates := candidates[a := candidates[a].(sources := candidates[a].sources + sources)];
    }

    method Add(a: A, source: Source) returns (isNew: bool)
      requires Valid()
      modifies this`order, this`candidates
      ensures forall x :: x in candidates <==> x in old(candidates) || x == a
      ensures candidates[a] == if a in old(candidates) then Candidate(old(candidates)[a].sources + {source}, old(candidates)[a].state)
                               else Candidate({source}, Unverified)
      ensures forall x :: x in old(candidates) && x != a ==> candidates[x] == old(candidates)[x]
      ensures order == if a in old(candidates) then old(order) else old(order) + [a]
      ensures Contents() == AddressBook.AddSources(old(Contents()), a, {source})
      ensures isNew == (a !in old(candidates))
      ensures source != Identify ==> Valid()
    {
      isNew := AddSources(a, {source});
      if source != Identify {
        AddKeepsTable(old(Contents()), a, {source});
        AddKeepsRing(old(Contents()), a, {source}, maxSize);
      }
    }

    /** Also the public `update`: false for an unknown address. */
    method Update(a: A, state: Reach) returns (known: bool)
      requires Valid()
      modifies this`candidates
      ensures candidates.Keys == old(candidates).Keys
      ensures forall x :: x in candidates ==>
                candidates[x] == Candidate(old(candidates)[x].sources, if x == a then state else old(candidates)[x].state)
      ensures Contents() == Updated(old(Contents()), a, state) && Valid()
      ensures known == (a in candidates)
    {
      UpdateKeeps(Contents(), a, state, maxSize);
      known := a in candidates;
      if known {
        candidates := candidates[a := candidates[a].(state := state)];
      }
    }

    method Withdraw(now: map<A, set<Source>>)
      requires TableInv(Contents())
      requires chain.Keys <= candidates.Keys
      modifies this`order, this`candidates
      ensures candidates == WithdrawnAll(old(candidates), chain, now, {})
      ensures order == Only(old(order), candidates.Keys)
    {
      hide WithdrawnAll, Only, ChainOf, Distinct, Elements;
      var todo := chain.Keys;
      ghost var c0 := candidates;
      assert WithdrawnAll(c0, chain, now, todo) == c0 by {
        NothingWithdrawn(c0, chain, now);
      }
      TableOnly(Contents());
      while todo != {}
        invariant todo <= chain.Keys <= c0.Keys
        invariant candidates == WithdrawnAll(c0, chain, now, todo)
        invariant order == Only(old(order), candidates.Keys)
        decreases |todo|
      {
        var a :| a in todo;
        WithdrawStep(c0, chain, now, todo, a);
        var gone := ChainOf(chain, a) - ChainOf(now, a);
        ghost var was := candidates;
        if gone != {} {
          var left := candidates[a].sources - gone;
          if left == {} {
            candidates := candidates - {a};
            order := Only(order, candidates.Keys);
            OnlyOnly(old(order), was.Keys, candidates.Keys);
          } else {
            candidates := candidates[a := candidates[a].(sources := left)];
            assert candidates.Keys == was.Keys;
          }
        }
        todo := todo - {a};
      }
    }

    /** The first half of a pass: every kept address gets the sources that produced it. */
    method AddKept(produced: map<A, set<Source>>, kept: seq<A>) returns (now: map<A, set<Source>>)
      requires Distinct(order) && Elements(order) == candidates.Keys
      modifies this`order, this`candidates
      ensures order == PutAll(old(order), kept) && Distinct(order) && Elements(order) == candidates.Keys
      ensures candidates == Added(old(candidates), produced, kept)
      ensures now == FreshSources(produced, kept)
    {
      hide PutAll, Put, Added, FreshSources, ChainOf, SourcesOf, StateOf;
      ghost var b := Contents();
      now := map[];
      AddedNothing(b.candidates, produced);
      PutAllStep(b.order, kept, 0);
      for i := 0 to |kept|
        invariant order == PutAll(b.order, kept[..i]) && Distinct(order) && Elements(order) == candidates.Keys
        invariant candidates == Added(b.candidates, produced, kept[..i])
        invariant now == FreshSources(produced, kept[..i])
      {
        assert kept[..i + 1] == kept[..i] + [kept[i]];
        AddedStep(b.candidates, produced, kept[..i], kept[i]);
        FreshStep(produced, kept[..i], kept[i]);
        PutAllStep(b.order, kept, i);
        var sources := ChainOf(produced, kept[i]);
        var _ := AddSources(kept[i], sources);
        now := now[kept[i] := sources];
      }
      assert kept[..|kept|] == kept;
    }

    /** `track`: a pass that keeps `kept`, each produced by the sources `produced` gives. Every address ends
        with its old and fresh sources but for the chain sources that were lost, those left with none are no
        candidates any more, and no state changes. */
    method Track(produced: map<A, set<Source>>, kept: seq<A>)
      requires Valid()
      requires Offers(FreshSources(produced, kept), kept)
      modifies this`order, this`candidates, this`chain
      ensures Valid() && chain == FreshSources(produced, kept)
      ensures forall a :: SourcesOf(candidates, a) ==
                (old(SourcesOf(candidates, a)) + ChainOf(chain, a)) - (old(ChainOf(chain, a)) - ChainOf(chain, a))
      ensures forall a :: a in candidates <==> SourcesOf(candidates, a) != {}
      ensures forall a :: a in candidates ==> StateOf(candidates, a) == old(StateOf(candidates, a))
      ensures Contents() == Passed(old(Contents()), FreshSources(produced, kept), kept)
    {
      hide Only, PutAll, RingInv, Added, FreshSources, WithdrawnAll, Offers, ChainOf, SourcesOf, StateOf, Remaining;
      ghost var b := Contents();
      var now := AddKept(produced, kept);
      AddedHolds(b, produced, kept);
      Withdraw(now);
      chain := now;
      TrackIsPass(b, produced, kept);
      PassKeepsTable(b, now, kept);
      PassKeepsChain(b, now, kept);
      PassKeepsRing(b, now, kept, maxSize);
      forall a
        ensures SourcesOf(candidates, a) ==
                (SourcesOf(b.candidates, a) + ChainOf(now, a)) - (ChainOf(b.chain, a) - ChainOf(now, a))
        ensures a in candidates <==> SourcesOf(candidates, a) != {}
        ensures a in candidates ==> StateOf(candidates, a) == StateOf(b.candidates, a)
      {
        PassExactly(b, now, kept, maxSize, a);
        RemainingIs(b, now, a);
      }
    }

    method RememberRefuted(a: A)
      requires maxSize >= 1
      modifies this`refuted
      ensures refuted == Remembered(old(refuted), a, maxSize)
    {
      if |refuted| >= maxSize {
        refuted := refuted[1..];
      }
      refuted := refuted + [Refuted(a, REFUTED_GUESS_RUNS)];
    }

    method ExpireRefuted()
      requires Valid()
      modifies this`refuted
      ensures CountedDown(old(refuted), refuted)
      ensures refuted == Expired(old(refuted)) && Valid()
    {
      hide Inv, CountedDown;
      ExpireKeeps(Contents(), maxSize);
      ExpiryCountsDown(refuted);
      ghost var was := refuted;
      for i := 0 to |refuted|
        invariant |refuted| == |was|
        invariant forall j :: 0 <= j < |was| ==> refuted[j] == if j < i then Older(was[j], 1) else was[j]
      {
        refuted := refuted[i := refuted[i].(runsLeft := refuted[i].runsLeft - 1)];
      }
      var left: seq<Refuted<A>> := [];
      for i := 0 to |refuted|
        invariant left == Expired(was[..i])
      {
        assert was[..i + 1][..i] == was[..i];
        if refuted[i].runsLeft > 0 {
          left := left + [refuted[i]];
        }
      }
      assert was[..|was|] == was;
      refuted := left;
    }

    /** A guess nobody else vouches for leaves the table for the ring when it is unreachable; any other
        candidate keeps its sources and takes the state; no other address is touched. True exactly when
        something changed. */
    method ApplyVerdict(a: A, state: Reach) returns (changed: bool)
      requires Valid()
      modifies this`order, this`candidates, this`refuted
      ensures var drops := a in old(candidates) && old(candidates)[a].sources == {Identify} && state == Unreachable;
              && (forall x :: x in candidates <==> x in old(candidates) && !(x == a && drops))
              && (forall x :: x in candidates && x != a ==> candidates[x] == old(candidates)[x])
              && (a in candidates ==> candidates[a] == Candidate(old(candidates)[a].sources, state))
              && (drops ==> exists n :: 0 <= n <= 1 && n <= |old(refuted)| && (n == 1 <==> |old(refuted)| == maxSize) &&
                                        refuted == old(refuted)[n..] + [Refuted(a, 12)])
              && (!drops ==> refuted == old(refuted) && order == old(order))
              && (changed <==> drops || (a in old(candidates) && old(candidates)[a].state != state))
      ensures Contents() == Judged(old(Contents()), a, state, maxSize) && Valid()
      ensures changed <==> Contents() != old(Contents())
    {
      hide Only, TableInv, ChainInv, RingInv;
      JudgeKeeps(Contents(), a, state, maxSize);
      RingFits(Contents(), maxSize);
      if a !in candidates {
        return false;
      }
      var candidate := candidates[a];
      if state == Unreachable && candidate.sources == {Identify} {
        candidates := candidates - {a};
        order := Only(order, candidates.Keys);
        ghost var n := if |refuted| == maxSize then 1 else 0;
        RememberRefuted(a);
        assert refuted == old(refuted)[n..] + [Refuted(a, 12)];
        return true;
      }
      if candidate.state == state {
        assert candidates[a := candidates[a].(state := state)] == candidates;
        return false;
      }
      candidates := candidates[a := candidate.(state := state)];
      changed := true;
      assert candidates[a] != candidate;
    }

    method AddIdentifyCandidates(guesses: seq<A>)
      requires Valid()
      modifies this`order, this`candidates
      ensures forall x :: x in candidates <==> x in old(candidates) || (x in guesses && !IsRefuted(refuted, x))
      ensures forall x :: x in candidates ==>
                && candidates[x].state == old(StateOf(candidates, x))
                && candidates[x].sources ==
                   old(SourcesOf(candidates, x)) + if x in guesses && !IsRefuted(refuted, x) then {Identify} else {}
      ensures Contents() == Guessed(old(Contents()), guesses) && Valid()
    {
      hide Inv, Put, Guessed, IsRefuted;
      ghost var b := Contents();
      GuessedStep(b, guesses, 0);
      for i := 0 to |guesses|
        invariant Contents() == Guessed(b, guesses[..i]) && Valid()
      {
        GuessedStep(b, guesses, i);
        GuessKeeps(b, guesses[..i + 1], maxSize);
        GuessKeeps(b, guesses[..i], maxSize);
        if !IsRefuted(refuted, guesses[i]) {
          TableOf(Contents(), maxSize);
          var _ := AddSources(guesses[i], {Identify});
        }
      }
      assert guesses[..|guesses|] == guesses;
      forall x
        ensures x in candidates <==> x in b.candidates || (x in guesses && !IsRefuted(refuted, x))
        ensures x in candidates ==>
                  && candidates[x].state == StateOf(b.candidates, x)
                  && candidates[x].sources ==
                     SourcesOf(b.candidates, x) + if x in guesses && !IsRefuted(refuted, x) then {Identify} else {}
      {
        GuessedAt(b, guesses, x);
      }
    }

    /** A verification run up to its first verdict. */
    method StartRun(guesses: seq<A>)
      requires Valid()
      modifies this`order, this`candidates, this`refuted
      ensures forall x :: x in candidates <==> x in old(candidates) || (x in guesses && !IsRefuted(refuted, x))
      ensures forall x :: x in candidates ==>
                && candidates[x].state == old(StateOf(candidates, x))
                && candidates[x].sources ==
                   old(SourcesOf(candidates, x)) + if x in guesses && !IsRefuted(refuted, x) then {Identify} else {}
      ensures CountedDown(old(refuted), refuted)
      ensures Contents() == RunStarted(old(Contents()), guesses) && Valid()
    {
      hide Inv, Guessed, IsRefuted, Expired, CountedDown;
      ExpireRefuted();
      AddIdentifyCandidates(guesses);
    }
  }

  /** One run less for every entry, and none without a run left. */
  ghost predicate CountedDown<A(!new)>(was: seq<Refuted<A>>, now: seq<Refuted<A>>) {
    forall a, n :: Refuted(a, n) in now <==> n >= 1 && Refuted(a, n + 1) in was
  }

  lemma {:induction false} ExpiryCountsDown<A(!new)>(refuted: seq<Refuted<A>>)
    ensures CountedDown(refuted, Expired(refuted))
  {
    hide Expired;
    forall a, n
      ensures Refuted(a, n) in Expired(refuted) <==> n >= 1 && Refuted(a, n + 1) in refuted
    {
      if Refuted(a, n) in Expired(refuted) {
        var was := ExpiredFrom(refuted, Refuted(a, n));
        assert was == Refuted(a, n + 1);
      }
      if n >= 1 && Refuted(a, n + 1) in refuted {
        ExpiredTo(refuted, Refuted(a, n + 1));
      }
    }
  }

  lemma {:induction false} GuessedStep<A(!new)>(b: Book<A>, guesses: seq<A>, i: nat)
    requires i <= |guesses|
    ensures i < |guesses| ==>
              Guessed(b, guesses[..i + 1]) ==
              if IsRefuted(b.refuted, guesses[i]) then Guessed(b, guesses[..i])
              else AddressBook.AddSources(Guessed(b, guesses[..i]), guesses[i], {Identify})
    ensures Guessed(b, []) == b
  {
    if i < |guesses| {
      assert guesses[..i + 1][..i] == guesses[..i];
    }
  }

  lemma {:induction false} RingFits<A(!new)>(b: Book<A>, maxSize: nat)
    requires Inv(b, maxSize)
    ensures |b.refuted| <= maxSize
  {
  }

  lemma {:induction false} RemainingIs<A(!new)>(b: Book<A>, now: map<A, set<Source>>, a: A)
    ensures Remaining(b, now, a) ==
            (SourcesOf(b.candidates, a) + ChainOf(now, a)) - (ChainOf(b.chain, a) - ChainOf(now, a))
  {
  }

  lemma {:induction false} TableOf<A(!new)>(b: Book<A>, maxSize: nat)
    requires Inv(b, maxSize)
    ensures Distinct(b.order) && Elements(b.order) == b.candidates.Keys
  {
  }

  lemma {:induction false} TableOnly<A(!new)>(b: Book<A>)
    requires TableInv(b)
    ensures Only(b.order, b.candidates.Keys) == b.order
  {
    forall i | 0 <= i < |b.order|
      ensures b.order[i] in b.candidates.Keys
    {
      assert b.order[i] in Elements(b.order);
    }
    OnlyAll(b.order, b.candidates.Keys);
  }

  lemma {:induction false} NothingWithdrawn<A(!new)>(candidates: map<A, Candidate>, chain: map<A, set<Source>>, now: map<A, set<Source>>)
    requires forall a :: a in candidates ==> candidates[a].sources != {}
    ensures WithdrawnAll(candidates, chain, now, chain.Keys) == candidates
  {
    forall a | a in candidates
      ensures Withdrawn(candidates[a], chain, now, chain.Keys, a) == candidates[a].sources
    {
      assert a !in chain ==> ChainOf(chain, a) == {};
    }
  }

  lemma {:induction false} AddedNothing<A(!new)>(candidates: map<A, Candidate>, produced: map<A, set<Source>>)
    ensures Added(candidates, produced, []) == candidates
    ensures FreshSources(produced, []) == map[]
  {
    assert Elements<A>([]) == {};
    forall a | a in candidates
      ensures Given(candidates, produced, [], a) == candidates[a]
    {
      assert candidates[a].sources + {} == candidates[a].sources;
    }
  }

  /** After the first half of a pass every candidate still has a source, and the old chain is still there. */
  lemma {:induction false} AddedHolds<A(!new)>(b: Book<A>, produced: map<A, set<Source>>, kept: seq<A>)
    requires TableInv(b) && ChainInv(b)
    requires Offers(FreshSources(produced, kept), kept)
    ensures var added := Added(b.candidates, produced, kept);
            b.chain.Keys <= added.Keys && forall a :: a in added ==> added[a].sources != {}
  {
    var added := Added(b.candidates, produced, kept);
    forall a | a in added
      ensures added[a].sources != {}
    {
      if a in b.candidates {
        var s :| s in b.candidates[a].sources;
        assert s in added[a].sources;
      } else {
        assert a in Elements(kept);
        var s :| s in FreshSources(produced, kept)[a];
        assert s in added[a].sources;
      }
    }
  }
}
