/** The mapper chain that feeds the candidate table of `libp2p/address_manager.nim`, and the announce set
    read from it. */
module AddressAnnounce {
  import opened Basics
  import opened AddressBook
  import opened AddressManager

  datatype Family = IPv4 | IPv6

  /** What the manager asks of an address. */
  datatype Traits<!A> = Traits(isPublic: A -> bool, isRelayed: A -> bool, family: A -> Option<Family>)

  /** `isAnnounceable`, read off the table; an unknown address reads as unverified without sources. */
  predicate Announceable<A(==,!new)>(t: Traits<A>, candidates: map<A, Candidate>, a: A) {
    match StateOf(candidates, a)
    case Unreachable => !t.isPublic(a)
    case Confirmed => true
    case Unverified => SourcesOf(candidates, a) != {Identify}
  }

  /** A candidate that proves its IP family reachable without a relay. */
  predicate Proves<A(==,!new)>(t: Traits<A>, candidates: map<A, Candidate>, a: A, f: Family) {
    StateOf(candidates, a) == Confirmed && !t.isRelayed(a) && t.isPublic(a) && t.family(a) == Some(f)
  }

  ghost predicate ConfirmedDirect<A(!new)>(t: Traits<A>, candidates: map<A, Candidate>, f: Family) {
    exists a :: a in candidates && Proves(t, candidates, a, f)
  }

  /** `confirmedFamilies`. */
  method ConfirmedFamilies<A(==,!new)>(t: Traits<A>, b: Book<A>) returns (families: set<Family>)
    requires Elements(b.order) == b.candidates.Keys
    ensures forall f :: f in families <==> ConfirmedDirect(t, b.candidates, f)
  {
    families := {};
    for i := 0 to |b.order|
      invariant forall f :: f in families <==> exists j :: 0 <= j < i && Proves(t, b.candidates, b.order[j], f)
    {
      var a := b.order[i];
      if StateOf(b.candidates, a) == Confirmed && !t.isRelayed(a) && t.isPublic(a) && t.family(a).Some? {
        assert Proves(t, b.candidates, a, t.family(a).value);
        families := families + {t.family(a).value};
      }
    }
    forall f
      ensures f in families <==> ConfirmedDirect(t, b.candidates, f)
    {
      if f in families {
        var j :| 0 <= j < |b.order| && Proves(t, b.candidates, b.order[j], f);
        assert b.order[j] in Elements(b.order);
      }
      if ConfirmedDirect(t, b.candidates, f) {
        var a :| a in b.candidates && Proves(t, b.candidates, a, f);
        assert a in Elements(b.order);
      }
    }
  }

  /** A relayed address whose IP family is reachable without a relay. */
  ghost predicate Redundant<A(!new)>(t: Traits<A>, candidates: map<A, Candidate>, a: A) {
    t.isRelayed(a) && t.family(a).Some? && ConfirmedDirect(t, candidates, t.family(a).value)
  }

  /** Announceable and not redundant, written out: an unreachable address only when it is not public, an
      unverified one unless it is a mere guess, and none behind a relay once a public address of its IP family
      is confirmed without one. */
  lemma {:induction false} WorthAnnouncing<A(!new)>(t: Traits<A>, candidates: map<A, Candidate>, a: A)
    ensures Announceable(t, candidates, a) <==>
            || a !in candidates
            || candidates[a].state == Confirmed
            || (candidates[a].state == Unverified && candidates[a].sources != {Identify})
            || (candidates[a].state == Unreachable && !t.isPublic(a))
    ensures Redundant(t, candidates, a) <==>
            t.isRelayed(a) && t.family(a).Some? &&
            exists x :: x in candidates && candidates[x].state == Confirmed &&
                        !t.isRelayed(x) && t.isPublic(x) && t.family(x) == t.family(a)
  {
    hide ConfirmedDirect;
    assert t.family(a).Some? ==>
        (ConfirmedDirect(t, candidates, t.family(a).value) <==>
         exists x :: x in candidates && candidates[x].state == Confirmed &&
                     !t.isRelayed(x) && t.isPublic(x) && t.family(x) == t.family(a)) by {
      if t.family(a).Some? {
        ProvenBy(t, candidates, t.family(a).value);
      }
    }
  }

  lemma {:induction false} ProvenBy<A(!new)>(t: Traits<A>, candidates: map<A, Candidate>, f: Family)
    ensures ConfirmedDirect(t, candidates, f) <==>
            exists x :: x in candidates && candidates[x].state == Confirmed &&
                        !t.isRelayed(x) && t.isPublic(x) && t.family(x) == Some(f)
  {
    forall x | x in candidates
      ensures Proves(t, candidates, x, f) <==>
              candidates[x].state == Confirmed && !t.isRelayed(x) && t.isPublic(x) && t.family(x) == Some(f)
    {
    }
  }

  /** `announceSet`: no address twice, and of the mapped and the fed addresses exactly the announceable ones
      that are not redundant. */
  method AnnounceSet<A(==,!new)>(t: Traits<A>, b: Book<A>, mapped: seq<A>) returns (announced: seq<A>)
    requires Elements(b.order) == b.candidates.Keys
    ensures Distinct(announced)
    ensures forall a :: a in announced <==>
              && (a in mapped || (a in b.candidates && a !in b.chain))
              && (|| a !in b.candidates
                  || b.candidates[a].state == Confirmed
                  || (b.candidates[a].state == Unverified && b.candidates[a].sources != {Identify})
                  || (b.candidates[a].state == Unreachable && !t.isPublic(a)))
              && !(t.isRelayed(a) && t.family(a).Some? &&
                   exists x :: x in b.candidates && b.candidates[x].state == Confirmed &&
                               !t.isRelayed(x) && t.isPublic(x) && t.family(x) == t.family(a))
    ensures forall a :: a in announced <==>
              && (a in mapped || (a in b.candidates && a !in b.chain))
              && Announceable(t, b.candidates, a) && !Redundant(t, b.candidates, a)
  {
    hide Announceable, StateOf;
    var confirmed := ConfirmedFamilies(t, b);
    var fed := FedAddrs(b);
    var all := mapped + fed;
    announced := [];
    for i := 0 to |all|
      invariant Distinct(announced)
      invariant forall a :: a in announced <==>
                  a in all[..i] && Announceable(t, b.candidates, a) && !Redundant(t, b.candidates, a)
    {
      var a := all[i];
      var redundant := t.isRelayed(a) && t.family(a).Some? && t.family(a).value in confirmed;
      assert redundant == Redundant(t, b.candidates, a);
      assert all[..i + 1] == all[..i] + [a];
      if a in announced || !Announceable(t, b.candidates, a) || redundant {
        continue;
      }
      announced := announced + [a];
    }
    assert all[..|all|] == all;
    assert forall a :: a in all <==> a in mapped || (a in b.candidates && a !in b.chain);
    forall a
      ensures Announceable(t, b.candidates, a) <==>
              || a !in b.candidates
              || b.candidates[a].state == Confirmed
              || (b.candidates[a].state == Unverified && b.candidates[a].sources != {Identify})
              || (b.candidates[a].state == Unreachable && !t.isPublic(a))
      ensures Redundant(t, b.candidates, a) <==>
              t.isRelayed(a) && t.family(a).Some? &&
              exists x :: x in b.candidates && b.candidates[x].state == Confirmed &&
                          !t.isRelayed(x) && t.isPublic(x) && t.family(x) == t.family(a)
    {
      WorthAnnouncing(t, b.candidates, a);
    }
  }

  /** `fedAddrs`: the candidates no mapper produces. */
  method FedAddrs<A(==,!new)>(b: Book<A>) returns (fed: seq<A>)
    requires Elements(b.order) == b.candidates.Keys
    ensures forall a :: a in fed <==> a in b.candidates && a !in b.chain
  {
    fed := [];
    for i := 0 to |b.order|
      invariant forall a :: a in fed <==> a in b.order[..i] && a !in b.chain
    {
      assert b.order[..i + 1] == b.order[..i] + [b.order[i]];
      if b.order[i] !in b.chain {
        fed := fed + [b.order[i]];
      }
    }
    assert b.order[..|b.order|] == b.order;
    assert forall a :: a in b.candidates.Keys <==> a in Elements(b.order);
  }

  datatype Mapper<!A> = Mapper(apply: seq<A> -> seq<A>, source: Source)

  /** The addresses after the first `k` mappers. */
  function Stage<A>(start: seq<A>, mappers: seq<Mapper<A>>, k: nat): seq<A>
    requires k <= |mappers|
  {
    if k == 0 then start else mappers[k - 1].apply(Stage(start, mappers, k - 1))
  }

  /** The k-th mapper, run with source `s`, added the address. */
  predicate Introduces<A(==,!new)>(start: seq<A>, mappers: seq<Mapper<A>>, k: nat, a: A, s: Source) {
    k < |mappers| && mappers[k].source == s && a in Stage(start, mappers, k + 1) && a !in Stage(start, mappers, k)
  }

  /** The producers of an address after the first `k` mappers. */
  ghost predicate Produces<A(!new)>(start: seq<A>, mappers: seq<Mapper<A>>, k: nat, a: A, s: Source) {
    (s == Listen && a in start) || exists j :: 0 <= j < k && Introduces(start, mappers, j, a, s)
  }

  /** Adds a source to each of the addresses. */
  method Credit<A(==,!new)>(table: map<A, set<Source>>, addresses: seq<A>, s: Source) returns (r: map<A, set<Source>>)
    ensures forall a :: a in r <==> a in table || a in addresses
    ensures forall a, x :: x in ChainOf(r, a) <==> x in ChainOf(table, a) || (a in addresses && x == s)
  {
    r := table;
    for i := 0 to |addresses|
      invariant forall a :: a in r <==> a in table || a in addresses[..i]
      invariant forall a, x :: x in ChainOf(r, a) <==> x in ChainOf(table, a) || (a in addresses[..i] && x == s)
    {
      assert addresses[..i + 1] == addresses[..i] + [addresses[i]];
      r := r[addresses[i] := ChainOf(r, addresses[i]) + {s}];
    }
    assert addresses[..|addresses|] == addresses;
  }

  /** The elements of `s` that are not in `known`. */
  method NotIn<A(==,!new)>(s: seq<A>, known: seq<A>) returns (r: seq<A>)
    ensures forall a :: a in r <==> a in s && a !in known
  {
    r := [];
    for i := 0 to |s|
      invariant forall a :: a in r <==> a in s[..i] && a !in known
    {
      assert s[..i + 1] == s[..i] + [s[i]];
      if s[i] !in known {
        r := r + [s[i]];
      }
    }
    assert s[..|s|] == s;
  }

  /** The chain of `resolve`: each address is credited to the listener, to the mapper that introduced it and
      to the operator who announced it, and everything that is kept has a producer. */
  method RunChain<A(==,!new)>(start: seq<A>, mappers: seq<Mapper<A>>, explicit: seq<A>)
    returns (produced: map<A, set<Source>>, mapped: seq<A>)
    ensures mapped == Stage(start, mappers, |mappers|)
    ensures forall a, s :: s in ChainOf(produced, a) <==>
              Produces(start, mappers, |mappers|, a, s) || (a in explicit && s == Announced)
    ensures forall a :: a in mapped + explicit ==> ChainOf(produced, a) != {}
  {
    hide Stage, ChainOf;
    mapped := start;
    StageZero(start, mappers);
    produced := Credit(map[], start, Listen);
    assert forall a :: ChainOf<A>(map[], a) == {} by {
      EmptyChain<A>();
    }
    assert forall a :: a in start ==> Listen in ChainOf(produced, a);
    for k := 0 to |mappers|
      invariant mapped == Stage(start, mappers, k)
      invariant forall a, s :: s in ChainOf(produced, a) <==> Produces(start, mappers, k, a, s)
      invariant forall a :: a in mapped ==> ChainOf(produced, a) != {}
    {
      var next := mappers[k].apply(mapped);
      StageStep(start, mappers, k);
      var added := NotIn(next, mapped);
      ghost var was := produced;
      produced := Credit(produced, added, mappers[k].source);
      forall a, s
        ensures s in ChainOf(produced, a) <==> Produces(start, mappers, k + 1, a, s)
      {
        ProducesStep(start, mappers, k, a, s);
      }
      forall a | a in next
        ensures ChainOf(produced, a) != {}
      {
        if a in mapped {
          var s :| s in ChainOf(was, a);
          assert s in ChainOf(produced, a);
        } else {
          assert mappers[k].source in ChainOf(produced, a);
        }
      }
      mapped := next;
    }
    ghost var before := produced;
    produced := Credit(produced, explicit, Announced);
    forall a | a in mapped + explicit
      ensures ChainOf(produced, a) != {}
    {
      if a in mapped {
        var s :| s in ChainOf(before, a);
        assert s in ChainOf(produced, a);
      } else {
        assert Announced in ChainOf(produced, a);
      }
    }
  }

  lemma {:induction false} EmptyChain<A(!new)>()
    ensures forall a :: ChainOf<A>(map[], a) == {}
  {
  }

  lemma {:induction false} StageZero<A(!new)>(start: seq<A>, mappers: seq<Mapper<A>>)
    ensures Stage(start, mappers, 0) == start
  {
  }

  lemma {:induction false} StageStep<A(!new)>(start: seq<A>, mappers: seq<Mapper<A>>, k: nat)
    requires k < |mappers|
    ensures Stage(start, mappers, k + 1) == mappers[k].apply(Stage(start, mappers, k))
  {
  }

  lemma {:induction false} ProducesStep<A(!new)>(start: seq<A>, mappers: seq<Mapper<A>>, k: nat, a: A, s: Source)
    ensures Produces(start, mappers, k + 1, a, s) <==>
            Produces(start, mappers, k, a, s) || Introduces(start, mappers, k, a, s)
  {
    hide Introduces;
    if Introduces(start, mappers, k, a, s) {
      assert Produces(start, mappers, k + 1, a, s);
    }
  }

  /** `resolve` with no change of the table between its mapper pass and its answer: an explicit list is
      announced as it is; otherwise the announced addresses are exactly the candidates that are announceable
      and not redundant, each once. */
  method Resolve<A(==,!new)>(
    m: AddressManager<A>, t: Traits<A>, start: seq<A>, mappers: seq<Mapper<A>>, explicit: seq<A>)
    returns (announced: seq<A>)
    requires m.Valid()
    requires forall k :: 0 <= k < |mappers| ==> mappers[k].source != Identify
    modifies m`order, m`candidates, m`chain
    ensures m.Valid() && m.refuted == old(m.refuted)
    ensures m.Contents() ==
            Passed(old(m.Contents()), m.chain, Stage(start, mappers, |mappers|) + explicit)
    ensures m.chain.Keys == Elements(Stage(start, mappers, |mappers|) + explicit)
    ensures forall a, s :: a in m.chain ==>
              (s in m.chain[a] <==> Produces(start, mappers, |mappers|, a, s) || (a in explicit && s == Announced))
    ensures explicit != [] ==> announced == explicit
    ensures explicit == [] ==> Distinct(announced)
    ensures explicit == [] ==> forall a :: a in announced <==>
              && a in m.candidates
              && (|| m.candidates[a].state == Confirmed
                  || (m.candidates[a].state == Unverified && m.candidates[a].sources != {Identify})
                  || (m.candidates[a].state == Unreachable && !t.isPublic(a)))
              && !(t.isRelayed(a) && t.family(a).Some? &&
                   exists x :: x in m.candidates && m.candidates[x].state == Confirmed &&
                               !t.isRelayed(x) && t.isPublic(x) && t.family(x) == t.family(a))
  {
    hide Announceable, Redundant, RingInv;
    var produced, mapped := RunChain(start, mappers, explicit);
    assert Offers(FreshSources(produced, mapped + explicit), mapped + explicit) by {
      ChainOffers(start, mappers, explicit, produced, mapped);
    }
    m.Track(produced, mapped + explicit);
    assert forall a :: a in m.chain ==> m.chain[a] == ChainOf(produced, a);
    if explicit != [] {
      return explicit;
    }
    assert mapped + explicit == mapped;
    announced := AnnounceSet(t, m.Contents(), mapped);
    forall a
      ensures (a in mapped || (a in m.candidates && a !in m.chain)) <==> a in m.candidates
    {
      assert a in mapped <==> a in m.chain;
    }
  }

  lemma {:induction false} ChainOffers<A(!new)>(
    start: seq<A>, mappers: seq<Mapper<A>>, explicit: seq<A>, produced: map<A, set<Source>>, mapped: seq<A>)
    requires forall k :: 0 <= k < |mappers| ==> mappers[k].source != Identify
    requires forall a, s :: s in ChainOf(produced, a) <==>
               Produces(start, mappers, |mappers|, a, s) || (a in explicit && s == Announced)
    requires forall a :: a in mapped + explicit ==> ChainOf(produced, a) != {}
    ensures Offers(FreshSources(produced, mapped + explicit), mapped + explicit)
  {
    forall a
      ensures Identify !in ChainOf(produced, a)
    {
      assert !Produces(start, mappers, |mappers|, a, Identify);
    }
  }

  /** What the last verdict or update since `a` entered said of it. */
  ghost predicate LastSaid<A(!new)>(ops: seq<Op<A>>, maxSize: nat, a: A, state: Reach) {
    exists e :: EnteredAt(ops, maxSize, a, e) && state == Said(ops[e + 1..], a)
  }

  /** A public address is announced as its last verdict says. `past` is what changed the table before, `ops`
      that with the pass of this call, and `said` the last verdict on each candidate. */
  method ResolveAfter<A(==,!new)>(
    m: AddressManager<A>, t: Traits<A>, start: seq<A>, mappers: seq<Mapper<A>>, ghost past: seq<Op<A>>)
    returns (announced: seq<A>, ghost ops: seq<Op<A>>, ghost said: map<A, Reach>)
    requires m.Valid() && m.Contents() == Run(Book([], map[], map[], []), past, m.maxSize)
    requires forall k :: 0 <= k < |mappers| ==> mappers[k].source != Identify
    modifies m`order, m`candidates, m`chain
    ensures ops == past + [Pass(m.chain, Stage(start, mappers, |mappers|))]
    ensures m.Contents() == Run(Book([], map[], map[], []), ops, m.maxSize)
    ensures said.Keys == m.candidates.Keys
    ensures forall a :: a in said ==> LastSaid(ops, m.maxSize, a, said[a])
    ensures forall a :: a in announced ==> a in said
    ensures forall a :: a in announced && said[a] == Unreachable ==> !t.isPublic(a)
    ensures forall a :: a in announced && said[a] == Unverified ==> m.candidates[a].sources != {Identify}
    ensures forall a :: a in said && said[a] == Confirmed ==>
              (a !in announced <==>
               t.isRelayed(a) && t.family(a).Some? &&
               exists x :: x in said && said[x] == Confirmed &&
                           !t.isRelayed(x) && t.isPublic(x) && t.family(x) == t.family(a))
  {
    hide Inv, Run, Passed, LastSaid;
    ghost var mapped := Stage(start, mappers, |mappers|);
    announced := Resolve(m, t, start, mappers, []);
    assert mapped + [] == mapped;
    ops := past + [Pass(m.chain, mapped)];
    PassRuns(past, m.chain, mapped, m.maxSize);
    said := Verdicts(ops, m.Contents(), m.maxSize);
  }

  lemma {:induction false} PassRuns<A(!new)>(past: seq<Op<A>>, chain: map<A, set<Source>>, kept: seq<A>, maxSize: nat)
    ensures var none := Book([], map[], map[], []);
            Run(none, past + [Pass(chain, kept)], maxSize) == Passed(Run(none, past, maxSize), chain, kept)
  {
    hide Passed;
    var all := past + [Pass(chain, kept)];
    assert all[..|all| - 1] == past;
  }

  /** The state of every candidate is what was last said of it. */
  lemma {:induction false} Verdicts<A(!new)>(ops: seq<Op<A>>, b: Book<A>, maxSize: nat) returns (said: map<A, Reach>)
    requires b == Run(Book([], map[], map[], []), ops, maxSize)
    ensures said.Keys == b.candidates.Keys
    ensures forall a :: a in said ==> said[a] == b.candidates[a].state && LastSaid(ops, maxSize, a, said[a])
  {
    hide LastSaid;
    said := map a | a in b.candidates :: b.candidates[a].state;
    forall a | a in said
      ensures LastSaid(ops, maxSize, a, said[a])
    {
      IsLastSaid(ops, maxSize, a);
    }
  }

  lemma {:induction false} IsLastSaid<A(!new)>(ops: seq<Op<A>>, maxSize: nat, a: A)
    requires a in Run(Book([], map[], map[], []), ops, maxSize).candidates
    ensures LastSaid(ops, maxSize, a, Run(Book([], map[], map[], []), ops, maxSize).candidates[a].state)
  {
    hide Run, Said;
    var e := StateIsLastVerdict(ops, maxSize, a);
  }
}
