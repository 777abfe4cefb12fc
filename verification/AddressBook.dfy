/** The candidate table of `libp2p/address_manager.nim` as a value: candidates with their sources, the
    sources the mapper chain last produced, and the ring of refuted guesses. */
module AddressBook {
  import opened Basics

  datatype Source = Autonat | Identify | Upnp | NatPmp | PortMapped | ExplicitIp | Circuit | Listen | Announced

  datatype Reach = Unverified | Confirmed | Unreachable

  datatype Candidate = Candidate(sources: set<Source>, state: Reach)

  const REFUTED_GUESS_RUNS := 12

  datatype Refuted<A> = Refuted(address: A, runsLeft: int)

  /** `order` is the insertion order of the candidate table. */
  datatype Book<A(==)> = Book(
    order: seq<A>,
    candidates: map<A, Candidate>,
    chain: map<A, set<Source>>,
    refuted: seq<Refuted<A>>)

  function Elements<A(==,!new)>(s: seq<A>): set<A> {
    set x | x in s
  }

  /** The elements of `s` that are in `keep`, in their order. */
  function Only<A(==,!new)>(s: seq<A>, keep: set<A>): (r: seq<A>)
    ensures forall x :: x in r <==> x in s && x in keep
    ensures Distinct(s) ==> Distinct(r)
  {
    if s == [] then []
    else
      var rest := Only(s[..|s| - 1], keep);
      if s[|s| - 1] in keep then rest + [s[|s| - 1]] else rest
  }

  function Put<A(==,!new)>(s: seq<A>, x: A): (r: seq<A>)
    ensures forall y :: y in r <==> y in s || y == x
    ensures Distinct(s) ==> Distinct(r)
  {
    if x in s then s else s + [x]
  }

  function PutAll<A(==,!new)>(s: seq<A>, xs: seq<A>): (r: seq<A>)
    ensures forall y :: y in r <==> y in s || y in xs
    ensures Distinct(s) ==> Distinct(r)
  {
    if xs == [] then s else Put(PutAll(s, xs[..|xs| - 1]), xs[|xs| - 1])
  }

  function SourcesOf<A(==,!new)>(candidates: map<A, Candidate>, a: A): set<Source> {
    if a in candidates then candidates[a].sources else {}
  }

  function StateOf<A(==,!new)>(candidates: map<A, Candidate>, a: A): Reach {
    if a in candidates then candidates[a].state else Unverified
  }

  function ChainOf<A(==,!new)>(chain: map<A, set<Source>>, a: A): set<Source> {
    if a in chain then chain[a] else {}
  }

  /** `addSources`: a new candidate is unverified, a known one keeps its state. */
  function AddSources<A(==,!new)>(b: Book<A>, a: A, sources: set<Source>): Book<A> {
    b.(order := Put(b.order, a),
       candidates := b.candidates[a := Candidate(SourcesOf(b.candidates, a) + sources, StateOf(b.candidates, a))])
  }

  /** What a mapper pass leaves an address: the old and the fresh sources, without the chain sources the
      pass no longer produces. */
  function Remaining<A(==,!new)>(b: Book<A>, fresh_: map<A, set<Source>>, a: A): set<Source> {
    (SourcesOf(b.candidates, a) + ChainOf(fresh_, a)) - (ChainOf(b.chain, a) - ChainOf(fresh_, a))
  }

  /** A whole mapper pass, address by address. */
  function Passed<A(==,!new)>(b: Book<A>, fresh_: map<A, set<Source>>, kept: seq<A>): Book<A> {
    var candidates :=
      map a | a in b.candidates.Keys + fresh_.Keys && Remaining(b, fresh_, a) != {} ::
        Candidate(Remaining(b, fresh_, a), StateOf(b.candidates, a));
    b.(order := Only(PutAll(b.order, kept), candidates.Keys), candidates := candidates, chain := fresh_)
  }

  predicate IsRefuted<A(==,!new)>(refuted: seq<Refuted<A>>, a: A) {
    exists i :: 0 <= i < |refuted| && refuted[i].address == a
  }

  /** `rememberRefuted`: a ring of at most `maxSize`. */
  function Remembered<A(==,!new)>(refuted: seq<Refuted<A>>, a: A, maxSize: nat): seq<Refuted<A>> {
    (if |refuted| >= maxSize && refuted != [] then refuted[1..] else refuted) + [Refuted(a, REFUTED_GUESS_RUNS)]
  }

  /** `expireRefuted`. */
  function Expired<A(==,!new)>(refuted: seq<Refuted<A>>): seq<Refuted<A>> {
    if refuted == [] then []
    else
      var rest := Expired(refuted[..|refuted| - 1]);
      var last := refuted[|refuted| - 1];
      if last.runsLeft - 1 > 0 then rest + [last.(runsLeft := last.runsLeft - 1)] else rest
  }

  /** `applyVerdict`: a refuted guess leaves the table for the ring, any other candidate takes the state. */
  function Judged<A(==,!new)>(b: Book<A>, a: A, state: Reach, maxSize: nat): Book<A> {
    if a !in b.candidates then b
    else if state == Unreachable && b.candidates[a].sources == {Identify} then
      b.(order := Only(b.order, b.candidates.Keys - {a}),
         candidates := b.candidates - {a},
         refuted := Remembered(b.refuted, a, maxSize))
    else Updated(b, a, state)
  }

  /** `update`. */
  function Updated<A(==,!new)>(b: Book<A>, a: A, state: Reach): Book<A> {
    if a !in b.candidates then b
    else b.(candidates := b.candidates[a := b.candidates[a].(state := state)])
  }

  /** `addIdentifyCandidates` with the given guesses. */
  function Guessed<A(==,!new)>(b: Book<A>, guesses: seq<A>): Book<A> {
    if guesses == [] then b
    else
      var before := Guessed(b, guesses[..|guesses| - 1]);
      var guess := guesses[|guesses| - 1];
      if IsRefuted(b.refuted, guess) then before else AddSources(before, guess, {Identify})
  }

  /** What a verification run does before it asks for verdicts. */
  function RunStarted<A(==,!new)>(b: Book<A>, guesses: seq<A>): Book<A> {
    Guessed(b.(refuted := Expired(b.refuted)), guesses)
  }

  /** What the manager keeps. */
  ghost predicate TableInv<A(!new)>(b: Book<A>) {
    && Distinct(b.order)
    && Elements(b.order) == b.candidates.Keys
    && (forall a :: a in b.candidates ==> b.candidates[a].sources != {})
  }

  ghost predicate ChainInv<A(!new)>(b: Book<A>) {
    forall a :: a in b.chain ==>
      a in b.candidates && b.chain[a] != {} && b.chain[a] <= b.candidates[a].sources && Identify !in b.chain[a]
  }

  ghost predicate RingInv<A(!new)>(b: Book<A>, maxSize: nat) {
    && |b.refuted| <= maxSize
    && (forall i :: 0 <= i < |b.refuted| ==> 1 <= b.refuted[i].runsLeft <= REFUTED_GUESS_RUNS)
    && Apart(b.refuted)
    && (forall i :: 0 <= i < |b.refuted| ==> Identify !in SourcesOf(b.candidates, b.refuted[i].address))
  }

  ghost predicate Inv<A(!new)>(b: Book<A>, maxSize: nat) {
    TableInv(b) && ChainInv(b) && RingInv(b, maxSize)
  }

  /** What a mapper pass offers: every address it keeps has a producer, and none of them is `Identify`. */
  predicate Offers<A(==,!new)>(fresh_: map<A, set<Source>>, kept: seq<A>) {
    && Elements(kept) == fresh_.Keys
    && forall a :: a in fresh_ ==> fresh_[a] != {} && Identify !in fresh_[a]
  }

  /** One change of the table. */
  datatype Op<A(==)> =
    | Feed(address: A, source: Source)
    | Pass(produced: map<A, set<Source>>, kept: seq<A>)
    | Judge(address: A, state: Reach)
    | Update(address: A, state: Reach)
    | StartRun(guesses: seq<A>)
    | Stop

  predicate Allowed<A(==,!new)>(op: Op<A>) {
    match op
    case Feed(_, source) => source != Identify
    case Pass(produced, kept) => Offers(produced, kept)
    case _ => true
  }

  function Apply<A(==,!new)>(b: Book<A>, op: Op<A>, maxSize: nat): Book<A> {
    match op
    case Feed(a, source) => AddSources(b, a, {source})
    case Pass(produced, kept) => Passed(b, produced, kept)
    case Judge(a, state) => Judged(b, a, state, maxSize)
    case Update(a, state) => Updated(b, a, state)
    case StartRun(guesses) => RunStarted(b, guesses)
    case Stop => Book([], map[], map[], [])
  }

  function Run<A(==,!new)>(b: Book<A>, ops: seq<Op<A>>, maxSize: nat): Book<A> {
    if ops == [] then b else Apply(Run(b, ops[..|ops| - 1], maxSize), ops[|ops| - 1], maxSize)
  }

  lemma {:induction false} AddKeepsTable<A(!new)>(b: Book<A>, a: A, sources: set<Source>)
    requires TableInv(b) && ChainInv(b)
    requires sources != {}
    ensures TableInv(AddSources(b, a, sources)) && ChainInv(AddSources(b, a, sources))
  {
    var s :| s in sources;
    assert s in SourcesOf(b.candidates, a) + sources;
  }

  lemma {:induction false} AddKeepsRing<A(!new)>(b: Book<A>, a: A, sources: set<Source>, maxSize: nat)
    requires RingInv(b, maxSize)
    requires Identify !in sources || !IsRefuted(b.refuted, a)
    ensures RingInv(AddSources(b, a, sources), maxSize)
  {
    var c := AddSources(b, a, sources);
    forall i | 0 <= i < |c.refuted|
      ensures Identify !in SourcesOf(c.candidates, c.refuted[i].address)
    {
    }
  }

  lemma {:induction false} PassKeepsTable<A(!new)>(b: Book<A>, fresh_: map<A, set<Source>>, kept: seq<A>)
    requires TableInv(b)
    requires Offers(fresh_, kept)
    ensures TableInv(Passed(b, fresh_, kept))
  {
    hide Only, PutAll, Remaining;
    var c := Passed(b, fresh_, kept);
    forall a
      ensures a in c.order <==> a in c.candidates
    {
      assert a in b.candidates.Keys <==> a in Elements(b.order);
      assert a in fresh_.Keys <==> a in Elements(kept);
    }
  }

  lemma {:induction false} PassKeepsChain<A(!new)>(b: Book<A>, fresh_: map<A, set<Source>>, kept: seq<A>)
    requires Offers(fresh_, kept)
    ensures ChainInv(Passed(b, fresh_, kept))
  {
    hide Only, PutAll;
    forall a | a in fresh_
      ensures fresh_[a] <= Remaining(b, fresh_, a) && Remaining(b, fresh_, a) != {}
    {
      var s :| s in fresh_[a];
      assert s in Remaining(b, fresh_, a);
    }
  }

  lemma {:induction false} PassKeepsRing<A(!new)>(b: Book<A>, fresh_: map<A, set<Source>>, kept: seq<A>, maxSize: nat)
    requires RingInv(b, maxSize)
    requires Offers(fresh_, kept)
    ensures RingInv(Passed(b, fresh_, kept), maxSize)
  {
    hide Only, PutAll;
    var c := Passed(b, fresh_, kept);
    forall i | 0 <= i < |c.refuted|
      ensures Identify !in SourcesOf(c.candidates, c.refuted[i].address)
    {
      assert Identify !in SourcesOf(b.candidates, b.refuted[i].address);
    }
  }

  lemma {:induction false} JudgeKeeps<A(!new)>(b: Book<A>, a: A, state: Reach, maxSize: nat)
    requires Inv(b, maxSize) && maxSize >= 1
    ensures Inv(Judged(b, a, state, maxSize), maxSize)
  {
    hide Only;
    var c := Judged(b, a, state, maxSize);
    if a in b.candidates && state == Unreachable && b.candidates[a].sources == {Identify} {
      assert Identify in SourcesOf(b.candidates, a);
      assert !IsRefuted(b.refuted, a);
      assert a !in b.chain;
      assert Elements(c.order) == c.candidates.Keys by {
        assert forall x :: x in b.candidates.Keys <==> x in Elements(b.order);
      }
    } else {
      UpdateKeeps(b, a, state, maxSize);
    }
  }

  lemma {:induction false} UpdateKeeps<A(!new)>(b: Book<A>, a: A, state: Reach, maxSize: nat)
    requires Inv(b, maxSize)
    ensures Inv(Updated(b, a, state), maxSize)
  {
    var c := Updated(b, a, state);
    assert c.candidates.Keys == b.candidates.Keys;
    forall x
      ensures SourcesOf(c.candidates, x) == SourcesOf(b.candidates, x)
    {
    }
  }

  function Older<A>(e: Refuted<A>, k: nat): Refuted<A> {
    e.(runsLeft := e.runsLeft - k)
  }

  /** Expiry only drops guesses and counts down the others. */
  lemma {:induction false} ExpiredFrom<A(!new)>(refuted: seq<Refuted<A>>, e: Refuted<A>) returns (was: Refuted<A>)
    requires e in Expired(refuted)
    ensures e.runsLeft >= 1 && was in refuted && e == Older(was, 1)
  {
    var front, last := refuted[..|refuted| - 1], refuted[|refuted| - 1];
    if e in Expired(front) {
      was := ExpiredFrom(front, e);
    } else {
      was := last;
    }
  }

  lemma {:induction false} ExpiredTo<A(!new)>(refuted: seq<Refuted<A>>, e: Refuted<A>)
    requires e in refuted && e.runsLeft > 1
    ensures Older(e, 1) in Expired(refuted)
  {
    var front, last := refuted[..|refuted| - 1], refuted[|refuted| - 1];
    if e in front {
      ExpiredTo(front, e);
    }
  }

  lemma {:induction false} ExpiredShrinks<A(!new)>(refuted: seq<Refuted<A>>)
    ensures |Expired(refuted)| <= |refuted|
  {
    if refuted != [] {
      ExpiredShrinks(refuted[..|refuted| - 1]);
    }
  }

  ghost predicate Apart<A(!new)>(refuted: seq<Refuted<A>>) {
    forall i, j :: 0 <= i < j < |refuted| ==> refuted[i].address != refuted[j].address
  }

  lemma {:induction false} ExpiredApart<A(!new)>(refuted: seq<Refuted<A>>)
    requires Apart(refuted)
    ensures Apart(Expired(refuted))
  {
    if refuted != [] {
      var front, last := refuted[..|refuted| - 1], refuted[|refuted| - 1];
      ExpiredApart(front);
      var rest := Expired(front);
      forall i | 0 <= i < |rest|
        ensures rest[i].address != last.address
      {
        var was := ExpiredFrom(front, rest[i]);
      }
    }
  }

  lemma {:induction false} ExpireKeeps<A(!new)>(b: Book<A>, maxSize: nat)
    requires Inv(b, maxSize)
    ensures Inv(b.(refuted := Expired(b.refuted)), maxSize)
  {
    hide Only, Expired;
    var r := Expired(b.refuted);
    ExpiredShrinks(b.refuted);
    ExpiredApart(b.refuted);
    forall i | 0 <= i < |r|
      ensures 1 <= r[i].runsLeft <= REFUTED_GUESS_RUNS && Identify !in SourcesOf(b.candidates, r[i].address)
    {
      var was := ExpiredFrom(b.refuted, r[i]);
    }
  }

  lemma {:induction false} GuessKeeps<A(!new)>(b: Book<A>, guesses: seq<A>, maxSize: nat)
    requires Inv(b, maxSize)
    ensures Inv(Guessed(b, guesses), maxSize)
    ensures Guessed(b, guesses).refuted == b.refuted
    decreases |guesses|
  {
    hide TableInv, ChainInv, RingInv;
    if guesses != [] {
      var before := Guessed(b, guesses[..|guesses| - 1]);
      var guess := guesses[|guesses| - 1];
      GuessKeeps(b, guesses[..|guesses| - 1], maxSize);
      if !IsRefuted(b.refuted, guess) {
        AddKeepsTable(before, guess, {Identify});
        AddKeepsRing(before, guess, {Identify}, maxSize);
      }
    }
  }

  lemma {:induction false} StepKeeps<A(!new)>(b: Book<A>, op: Op<A>, maxSize: nat)
    requires Inv(b, maxSize) && maxSize >= 1
    requires Allowed(op)
    ensures Inv(Apply(b, op, maxSize), maxSize)
  {
    match op
    case Feed(a, source) =>
      AddKeepsTable(b, a, {source});
      AddKeepsRing(b, a, {source}, maxSize);
    case Pass(produced, kept) =>
      PassKeepsTable(b, produced, kept);
      PassKeepsChain(b, produced, kept);
      PassKeepsRing(b, produced, kept, maxSize);
    case Judge(a, state) => JudgeKeeps(b, a, state, maxSize);
    case Update(a, state) => UpdateKeeps(b, a, state, maxSize);
    case StartRun(guesses) =>
      ExpireKeeps(b, maxSize);
      GuessKeeps(b.(refuted := Expired(b.refuted)), guesses, maxSize);
    case Stop =>
  }

  lemma {:induction false} RunKeepsFrom<A(!new)>(b: Book<A>, ops: seq<Op<A>>, maxSize: nat)
    requires Inv(b, maxSize) && maxSize >= 1
    requires forall i :: 0 <= i < |ops| ==> Allowed(ops[i])
    ensures Inv(Run(b, ops, maxSize), maxSize)
    decreases |ops|
  {
    hide Inv, Apply;
    if ops != [] {
      RunKeepsFrom(b, ops[..|ops| - 1], maxSize);
      StepKeeps(Run(b, ops[..|ops| - 1], maxSize), ops[|ops| - 1], maxSize);
    }
  }

  /** Over every run from an empty table: candidates have sources, chain addresses stay candidates with their
      chain sources, and the ring is distinct, bounded, within its countdown and free of live guesses. */
  lemma {:induction false} RunKeeps<A(!new)>(ops: seq<Op<A>>, maxSize: nat)
    requires maxSize >= 1
    requires forall i :: 0 <= i < |ops| ==> Allowed(ops[i])
    ensures Inv(Run(Book([], map[], map[], []), ops, maxSize), maxSize)
  {
    hide Inv;
    EmptyHolds<A>(maxSize);
    RunKeepsFrom(Book([], map[], map[], []), ops, maxSize);
  }

  lemma {:induction false} EmptyHolds<A(!new)>(maxSize: nat)
    ensures Inv<A>(Book([], map[], map[], []), maxSize)
  {
  }

  /** No verdict drops an address the chain produces. */
  lemma {:induction false} VerdictSparesChain<A(!new)>(b: Book<A>, x: A, state: Reach, maxSize: nat, a: A)
    requires Inv(b, maxSize)
    requires a in b.chain
    ensures var c := Judged(b, x, state, maxSize);
            a in c.candidates && c.candidates[a].sources == b.candidates[a].sources && c.chain == b.chain
  {
    hide Only, RingInv;
    var s :| s in b.chain[a];
    assert s in b.candidates[a].sources && s != Identify;
  }

  /** A pass keeps exactly the addresses it leaves a source, and no state changes. */
  lemma {:induction false} PassExactly<A(!new)>(b: Book<A>, fresh_: map<A, set<Source>>, kept: seq<A>, maxSize: nat, a: A)
    requires Inv(b, maxSize)
    requires Offers(fresh_, kept)
    ensures var c := Passed(b, fresh_, kept);
            && (a in c.candidates <==> Remaining(b, fresh_, a) != {})
            && SourcesOf(c.candidates, a) == Remaining(b, fresh_, a)
            && (a in c.candidates ==> StateOf(c.candidates, a) == StateOf(b.candidates, a))
            && (a in fresh_ ==> a in c.candidates)
            && c.refuted == b.refuted
  {
    hide Only, PutAll, RingInv;
    if a in fresh_ {
      var s :| s in fresh_[a];
      assert s in Remaining(b, fresh_, a);
    }
  }

  /** The last verdict or update on `a`; unverified without one. */
  function Said<A(==,!new)>(ops: seq<Op<A>>, a: A): Reach {
    if ops == [] then Unverified
    else
      var op := ops[|ops| - 1];
      if (op.Judge? || op.Update?) && op.address == a then op.state else Said(ops[..|ops| - 1], a)
  }

  /** `a` entered with the change at `e` and was a candidate ever since. */
  ghost predicate EnteredAt<A(!new)>(ops: seq<Op<A>>, maxSize: nat, a: A, e: nat) {
    && e < |ops|
    && a !in Run(Book([], map[], map[], []), ops[..e], maxSize).candidates
    && forall k :: e < k <= |ops| ==> a in Run(Book([], map[], map[], []), ops[..k], maxSize).candidates
  }

  /** A change sets the state of the candidate it judges or updates, lets newcomers in unverified, and leaves
      every other state alone. */
  lemma {:induction false} StateAfter<A(!new)>(b: Book<A>, op: Op<A>, maxSize: nat, a: A)
    requires a in Apply(b, op, maxSize).candidates
    ensures Apply(b, op, maxSize).candidates[a].state ==
            if a !in b.candidates then Unverified
            else if (op.Judge? || op.Update?) && op.address == a then op.state
            else b.candidates[a].state
  {
    hide Only, PutAll, Expired, Remaining;
    if op.StartRun? {
      GuessedAt(b.(refuted := Expired(b.refuted)), op.guesses, a);
    }
  }

  /** What the guesses of a run do to an address. */
  lemma {:induction false} GuessedAt<A(!new)>(b: Book<A>, guesses: seq<A>, a: A)
    ensures var c, taken := Guessed(b, guesses).candidates, a in guesses && !IsRefuted(b.refuted, a);
            && (a in c <==> a in b.candidates || taken)
            && (a in c ==> c[a].state == StateOf(b.candidates, a) &&
                           c[a].sources == SourcesOf(b.candidates, a) + if taken then {Identify} else {})
    decreases |guesses|
  {
    hide IsRefuted, Put;
    if guesses != [] {
      GuessedAt(b, guesses[..|guesses| - 1], a);
    }
  }

  /** The state of a candidate is what the last verdict or update since it entered said of it. */
  lemma {:induction false} StateIsLastVerdict<A(!new)>(ops: seq<Op<A>>, maxSize: nat, a: A) returns (e: nat)
    requires a in Run(Book([], map[], map[], []), ops, maxSize).candidates
    ensures EnteredAt(ops, maxSize, a, e)
    ensures Run(Book([], map[], map[], []), ops, maxSize).candidates[a].state == Said(ops[e + 1..], a)
    decreases |ops|
  {
    hide Apply;
    var none := Book([], map[], map[], []);
    var front := ops[..|ops| - 1];
    var b := Run(none, front, maxSize);
    StateAfter(b, ops[|ops| - 1], maxSize, a);
    assert ops[..|ops|] == ops;
    if a in b.candidates {
      e := StateIsLastVerdict(front, maxSize, a);
      assert ops[e + 1..][..|ops| - e - 2] == front[e + 1..];
      assert forall k :: 0 <= k < |ops| ==> ops[..k] == front[..k];
    } else {
      e := |front|;
    }
  }

  /** The verification runs among the changes. */
  function Starts<A>(ops: seq<Op<A>>): nat {
    if ops == [] then 0 else Starts(ops[..|ops| - 1]) + if ops[|ops| - 1].StartRun? then 1 else 0
  }

  /** The verdict drops a guess into the ring. */
  predicate Refutes<A(==,!new)>(b: Book<A>, op: Op<A>) {
    op.Judge? && op.state == Unreachable && op.address in b.candidates && b.candidates[op.address].sources == {Identify}
  }

  /** The refutations in a run. */
  function Refutations<A(==,!new)>(b: Book<A>, ops: seq<Op<A>>, maxSize: nat): nat {
    if ops == [] then 0
    else
      var front := ops[..|ops| - 1];
      Refutations(b, front, maxSize) + if Refutes(Run(b, front, maxSize), ops[|ops| - 1]) then 1 else 0
  }

  /** None of them refutes `a`. */
  predicate NeverRefutes<A(==,!new)>(b: Book<A>, ops: seq<Op<A>>, maxSize: nat, a: A) {
    ops == []
    || (var front, op := ops[..|ops| - 1], ops[|ops| - 1];
        NeverRefutes(b, front, maxSize, a) && !(Refutes(Run(b, front, maxSize), op) && op.address == a))
  }

  lemma {:induction false} ExpiredParts<A(!new)>(x: seq<Refuted<A>>, y: seq<Refuted<A>>)
    ensures Expired(x + y) == Expired(x) + Expired(y)
  {
    if y == [] {
      assert x + y == x;
    } else {
      assert (x + y)[..|x + y| - 1] == x + y[..|y| - 1];
      ExpiredParts(x, y[..|y| - 1]);
    }
  }

  /** What a step does to the ring. */
  lemma {:induction false} RingAfter<A(!new)>(b: Book<A>, op: Op<A>, maxSize: nat)
    requires Inv(b, maxSize) && !op.Stop?
    ensures Apply(b, op, maxSize).refuted ==
            if op.StartRun? then Expired(b.refuted)
            else if Refutes(b, op) then Remembered(b.refuted, op.address, maxSize)
            else b.refuted
  {
    hide Inv, Expired;
    if op.StartRun? {
      ExpireKeeps(b, maxSize);
      GuessKeeps(b.(refuted := Expired(b.refuted)), op.guesses, maxSize);
    }
  }

  /** The entry of `a` in the ring, with at most `later` entries behind it. */
  ghost predicate Waits<A(!new)>(ring: seq<Refuted<A>>, a: A, runsLeft: int, later: nat) {
    exists x, y :: ring == x + [Refuted(a, runsLeft)] + y && |y| <= later
  }

  lemma {:induction false} WaitsOneLess<A(!new)>(ring: seq<Refuted<A>>, a: A, runsLeft: int, later: nat)
    requires Waits(ring, a, runsLeft, later) && runsLeft > 1
    ensures Waits(Expired(ring), a, runsLeft - 1, later)
  {
    var e := Refuted(a, runsLeft);
    var x, y :| ring == x + [e] + y && |y| <= later;
    ExpiredParts(x + [e], y);
    ExpiredParts(x, [e]);
    ExpiredShrinks(y);
    assert Expired([e]) == [Refuted(a, runsLeft - 1)] by {
      assert [e][..0] == [];
    }
    assert Expired(ring) == Expired(x) + [Refuted(a, runsLeft - 1)] + Expired(y);
  }

  /** One more refutation pushes the entry on, but not out while fewer than `maxSize` came after it. */
  lemma {:induction false} WaitsBehind<A(!new)>(ring: seq<Refuted<A>>, a: A, runsLeft: int, later: nat, other: A, maxSize: nat)
    requires Waits(ring, a, runsLeft, later) && later + 1 < maxSize
    ensures Waits(Remembered(ring, other, maxSize), a, runsLeft, later + 1)
  {
    var e := Refuted(a, runsLeft);
    var x, y :| ring == x + [e] + y && |y| <= later;
    RememberedParts(x, e, y, other, maxSize);
  }

  lemma {:induction false} RememberedParts<A(!new)>(
    x: seq<Refuted<A>>, e: Refuted<A>, y: seq<Refuted<A>>, other: A, maxSize: nat)
    requires |y| + 1 < maxSize
    ensures var front := if |x + [e] + y| >= maxSize then x[1..] else x;
            Remembered(x + [e] + y, other, maxSize) == front + [e] + (y + [Refuted(other, REFUTED_GUESS_RUNS)])
  {
    var ring := x + [e] + y;
    if |ring| >= maxSize {
      assert ring[1..] == x[1..] + [e] + y;
    }
  }

  /** The entry outlasts every run with fewer than twelve verification runs and `maxSize` refutations. */
  lemma {:induction false} EntryStays<A(!new)>(c: Book<A>, a: A, ops: seq<Op<A>>, maxSize: nat)
    requires Inv(c, maxSize) && maxSize >= 1 && Waits(c.refuted, a, REFUTED_GUESS_RUNS, 0)
    requires forall i :: 0 <= i < |ops| ==> Allowed(ops[i]) && !ops[i].Stop?
    requires Refutations(c, ops, maxSize) < maxSize && Starts(ops) < REFUTED_GUESS_RUNS
    ensures Waits(Run(c, ops, maxSize).refuted, a, REFUTED_GUESS_RUNS - Starts(ops), Refutations(c, ops, maxSize))
    decreases |ops|
  {
    hide Inv, Apply, Waits, Remembered, Expired, Allowed;
    if ops != [] {
      var front, op := ops[..|ops| - 1], ops[|ops| - 1];
      EntryStays(c, a, front, maxSize);
      RunKeepsFrom(c, front, maxSize);
      var b, later := Run(c, front, maxSize), Refutations(c, front, maxSize);
      RingAfter(b, op, maxSize);
      if op.StartRun? {
        WaitsOneLess(b.refuted, a, REFUTED_GUESS_RUNS - Starts(front), later);
        NotARefutation(b, op);
      } else if Refutes(b, op) {
        WaitsBehind(b.refuted, a, REFUTED_GUESS_RUNS - Starts(front), later, op.address, maxSize);
      }
    }
  }

  lemma {:induction false} NotARefutation<A(!new)>(b: Book<A>, op: Op<A>)
    requires op.StartRun?
    ensures !Refutes(b, op)
  {
  }

  /** An entry of `a` counts the verification runs since. */
  ghost predicate Aged<A(!new)>(ring: seq<Refuted<A>>, a: A, runs: nat) {
    forall i :: 0 <= i < |ring| && ring[i].address == a ==> ring[i].runsLeft + runs == REFUTED_GUESS_RUNS
  }

  lemma {:induction false} AgedOneMore<A(!new)>(ring: seq<Refuted<A>>, a: A, runs: nat)
    requires Aged(ring, a, runs)
    ensures Aged(Expired(ring), a, runs + 1)
  {
    var r := Expired(ring);
    forall i | 0 <= i < |r| && r[i].address == a
      ensures r[i].runsLeft + runs + 1 == REFUTED_GUESS_RUNS
    {
      var was := ExpiredFrom(ring, r[i]);
    }
  }

  lemma {:induction false} AgedBehind<A(!new)>(ring: seq<Refuted<A>>, a: A, runs: nat, other: A, maxSize: nat)
    requires Aged(ring, a, runs) && other != a
    ensures Aged(Remembered(ring, other, maxSize), a, runs)
  {
  }

  lemma {:induction false} EntryAges<A(!new)>(c: Book<A>, a: A, ops: seq<Op<A>>, maxSize: nat)
    requires Inv(c, maxSize) && maxSize >= 1 && Aged(c.refuted, a, 0)
    requires forall i :: 0 <= i < |ops| ==> Allowed(ops[i]) && !ops[i].Stop?
    requires NeverRefutes(c, ops, maxSize, a)
    ensures Aged(Run(c, ops, maxSize).refuted, a, Starts(ops))
    decreases |ops|
  {
    hide Inv, Apply, Aged, Remembered, Expired, Allowed;
    if ops != [] {
      var front, op := ops[..|ops| - 1], ops[|ops| - 1];
      EntryAges(c, a, front, maxSize);
      RunKeepsFrom(c, front, maxSize);
      var b := Run(c, front, maxSize);
      RingAfter(b, op, maxSize);
      if op.StartRun? {
        AgedOneMore(b.refuted, a, Starts(front));
      } else if Refutes(b, op) {
        AgedBehind(b.refuted, a, Starts(front), op.address, maxSize);
      }
    }
  }

  /** The ring right after `a` is refuted. */
  lemma {:induction false} JustRefuted<A(!new)>(b: Book<A>, a: A, maxSize: nat)
    requires Inv(b, maxSize) && maxSize >= 1
    requires a in b.candidates && b.candidates[a].sources == {Identify}
    ensures var c := Judged(b, a, Unreachable, maxSize);
            Inv(c, maxSize) && Waits(c.refuted, a, REFUTED_GUESS_RUNS, 0) && Aged(c.refuted, a, 0)
  {
    hide Only;
    JudgeKeeps(b, a, Unreachable, maxSize);
    var c := Judged(b, a, Unreachable, maxSize);
    var n := |c.refuted| - 1;
    assert c.refuted == c.refuted[..n] + [Refuted(a, REFUTED_GUESS_RUNS)] + [];
    assert Apart(c.refuted);
  }

  /** Through any changes with fewer than `maxSize` further refutations, a refuted guess is out for fewer than
      twelve verification runs and, unless refuted again, in from the twelfth on. (A stop empties the ring.) */
  lemma {:induction false} StaysOutIff<A(!new)>(b: Book<A>, a: A, ops: seq<Op<A>>, maxSize: nat)
    requires Inv(b, maxSize) && maxSize >= 1
    requires a in b.candidates && b.candidates[a].sources == {Identify}
    requires forall i :: 0 <= i < |ops| ==> Allowed(ops[i]) && !ops[i].Stop?
    requires Refutations(Judged(b, a, Unreachable, maxSize), ops, maxSize) < maxSize
    ensures var c := Judged(b, a, Unreachable, maxSize);
            var ring := Run(c, ops, maxSize).refuted;
            && (Starts(ops) < REFUTED_GUESS_RUNS ==> IsRefuted(ring, a))
            && (NeverRefutes(c, ops, maxSize, a) ==> (IsRefuted(ring, a) <==> Starts(ops) < REFUTED_GUESS_RUNS))
  {
    hide Judged, Run, Starts, Refutations, NeverRefutes, Allowed, Inv, Waits, Aged, IsRefuted;
    JustRefuted(b, a, maxSize);
    var c := Judged(b, a, Unreachable, maxSize);
    var ring := Run(c, ops, maxSize).refuted;
    RunKeepsFrom(c, ops, maxSize);
    if Starts(ops) < REFUTED_GUESS_RUNS {
      EntryStays(c, a, ops, maxSize);
      WaitsIsRefuted(ring, a, REFUTED_GUESS_RUNS - Starts(ops), Refutations(c, ops, maxSize));
    }
    if NeverRefutes(c, ops, maxSize, a) {
      EntryAges(c, a, ops, maxSize);
      AgedOut(Run(c, ops, maxSize), a, Starts(ops), maxSize);
    }
  }

  lemma {:induction false} WaitsIsRefuted<A(!new)>(ring: seq<Refuted<A>>, a: A, runsLeft: int, later: nat)
    requires Waits(ring, a, runsLeft, later)
    ensures IsRefuted(ring, a)
  {
    var x, y :| ring == x + [Refuted(a, runsLeft)] + y && |y| <= later;
    assert ring[|x|].address == a;
  }

  lemma {:induction false} AgedOut<A(!new)>(b: Book<A>, a: A, runs: nat, maxSize: nat)
    requires Inv(b, maxSize) && Aged(b.refuted, a, runs)
    ensures IsRefuted(b.refuted, a) ==> runs < REFUTED_GUESS_RUNS
  {
    hide TableInv, ChainInv;
    if IsRefuted(b.refuted, a) {
      var i :| 0 <= i < |b.refuted| && b.refuted[i].address == a;
    }
  }

  lemma {:induction false} GuessedHas<A(!new)>(b: Book<A>, guesses: seq<A>, a: A)
    requires a in guesses && !IsRefuted(b.refuted, a)
    ensures Identify in SourcesOf(Guessed(b, guesses).candidates, a)
    decreases |guesses|
  {
    var front, guess := guesses[..|guesses| - 1], guesses[|guesses| - 1];
    if guess != a {
      GuessedHas(b, front, a);
    }
  }

  /** A verification run that guesses `a` makes it a candidate again exactly from the twelfth run on. */
  lemma {:induction false} LetInIff<A(!new)>(b: Book<A>, a: A, ops: seq<Op<A>>, guesses: seq<A>, maxSize: nat)
    requires Inv(b, maxSize) && maxSize >= 1
    requires a in b.candidates && b.candidates[a].sources == {Identify}
    requires forall i :: 0 <= i < |ops| ==> Allowed(ops[i]) && !ops[i].Stop?
    requires Refutations(Judged(b, a, Unreachable, maxSize), ops, maxSize) < maxSize
    requires NeverRefutes(Judged(b, a, Unreachable, maxSize), ops, maxSize, a)
    requires a in guesses
    ensures var c := Judged(b, a, Unreachable, maxSize);
            var after := Apply(Run(c, ops, maxSize), StartRun(guesses), maxSize);
            Identify in SourcesOf(after.candidates, a) <==> Starts(ops) + 1 >= REFUTED_GUESS_RUNS
  {
    hide Judged, Refutes, TableInv, ChainInv, Guessed, Expired;
    var c, op := Judged(b, a, Unreachable, maxSize), StartRun(guesses);
    var all := ops + [op];
    assert all[..|all| - 1] == ops;
    var mid := Run(c, ops, maxSize);
    NotARefutation(mid, op);
    StaysOutIff(b, a, all, maxSize);
    JustRefuted(b, a, maxSize);
    RunKeepsFrom(c, all, maxSize);
    RunKeepsFrom(c, ops, maxSize);
    RingAfter(mid, op, maxSize);
    if !IsRefuted(Expired(mid.refuted), a) {
      GuessedHas(mid.(refuted := Expired(mid.refuted)), guesses, a);
    }
  }
}
