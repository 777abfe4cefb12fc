/** The addresses peers report for this node, and the external address derived from them
    (`libp2p/address_manager.nim`). */
module ObservedAddrs {
  import opened Basics
  import opened Varint
  import opened VBuffers
  import opened Multiaddress

  datatype Observation = Observation(observer: PeerId, address: Address)

  /** All observations but those of one peer, in their order. */
  function Others(s: seq<Observation>, peer: PeerId): (r: seq<Observation>)
    ensures |r| <= |s|
    ensures forall o :: o in r <==> o in s && o.observer != peer
  {
    if s == [] then []
    else
      var rest := Others(s[..|s| - 1], peer);
      if s[|s| - 1].observer != peer then rest + [s[|s| - 1]] else rest
  }

  ghost predicate OnePerPeer(s: seq<Observation>) {
    forall i, j :: 0 <= i < j < |s| ==> s[i].observer != s[j].observer
  }

  /** `addObservation` for an address that passes its filter. */
  function Reported(s: seq<Observation>, o: Observation, maxSize: nat): seq<Observation> {
    var others := Others(s, o.observer);
    (if |others| >= maxSize && others != [] then others[1..] else others) + [o]
  }

  lemma {:induction false} OthersOnePerPeer(s: seq<Observation>, peer: PeerId)
    requires OnePerPeer(s)
    ensures OnePerPeer(Others(s, peer))
  {
    if s != [] {
      OthersOnePerPeer(s[..|s| - 1], peer);
      var rest := Others(s[..|s| - 1], peer);
      forall i | 0 <= i < |rest|
        ensures rest[i].observer != s[|s| - 1].observer
      {
        assert rest[i] in rest;
        var j :| 0 <= j < |s| - 1 && s[j] == rest[i];
      }
    }
  }

  lemma {:induction false} ReportedOnePerPeer(s: seq<Observation>, o: Observation, maxSize: nat)
    requires OnePerPeer(s) && maxSize >= 1 && |s| <= maxSize
    ensures OnePerPeer(Reported(s, o, maxSize)) && |Reported(s, o, maxSize)| <= maxSize
  {
    hide Others;
    OthersOnePerPeer(s, o.observer);
    var others := Others(s, o.observer);
    forall i | 0 <= i < |others|
      ensures others[i].observer != o.observer
    {
      assert others[i] in others;
    }
  }

  class Observer {
    var observations: seq<Observation>
    const maxSize: nat
    const minCount: nat

    ghost predicate Valid()
      reads this
    {
      maxSize >= 1 && minCount >= 1 && |observations| <= maxSize && OnePerPeer(observations)
    }

    /** Limits below one are raised to one. */
    constructor (size: int, count: int)
      ensures Valid() && observations == []
      ensures maxSize == (if size < 1 then 1 else size) && minCount == if count < 1 then 1 else count
    {
      observations := [];
      maxSize := if size < 1 then 1 else size;
      minCount := if count < 1 then 1 else count;
    }

    /** `addObservation`. */
    method AddObservation(started: bool, observable: Address -> bool, o: Observation) returns (kept: bool)
      requires Valid()
      modifies this`observations
      ensures Valid()
      ensures kept == (started && observable(o.address))
      ensures observations == if kept then Reported(old(observations), o, maxSize) else old(observations)
    {
      if !started || !observable(o.address) {
        return false;
      }
      ReportedOnePerPeer(observations, o, maxSize);
      var others: seq<Observation> := [];
      for i := 0 to |observations|
        invariant others == Others(observations[..i], o.observer)
      {
        assert observations[..i + 1][..i] == observations[..i];
        if observations[i].observer != o.observer {
          others := others + [observations[i]];
        }
      }
      assert observations[..|observations|] == observations;
      observations := others;
      if |observations| >= maxSize {
        observations := observations[1..];
      }
      observations := observations + [o];
      kept := true;
    }
  }

  /** The last report of every peer, by the time of that report. */
  function Latest(reports: seq<Observation>): seq<Observation> {
    if reports == [] then []
    else Others(Latest(reports[..|reports| - 1]), reports[|reports| - 1].observer) + [reports[|reports| - 1]]
  }

  function Stored(reports: seq<Observation>, maxSize: nat): seq<Observation> {
    if reports == [] then []
    else Reported(Stored(reports[..|reports| - 1], maxSize), reports[|reports| - 1], maxSize)
  }

  function Last(s: seq<Observation>, n: nat): seq<Observation> {
    if |s| <= n then s else s[|s| - n..]
  }

  lemma {:induction false} OthersOfParts(a: seq<Observation>, b: seq<Observation>, peer: PeerId)
    ensures Others(a + b, peer) == Others(a, peer) + Others(b, peer)
  {
    if b == [] {
      assert a + b == a;
    } else {
      assert (a + b)[..|a + b| - 1] == a + b[..|b| - 1];
      OthersOfParts(a, b[..|b| - 1], peer);
    }
  }

  lemma {:induction false} OthersOfStranger(s: seq<Observation>, peer: PeerId)
    requires forall i :: 0 <= i < |s| ==> s[i].observer != peer
    ensures Others(s, peer) == s
  {
    if s != [] {
      OthersOfStranger(s[..|s| - 1], peer);
      assert s == s[..|s| - 1] + [s[|s| - 1]];
    }
  }

  /** A peer is left out at most once. */
  lemma {:induction false} OthersLosesOne(s: seq<Observation>, peer: PeerId)
    requires OnePerPeer(s)
    ensures |Others(s, peer)| >= |s| - 1
  {
    if s != [] {
      var front := s[..|s| - 1];
      if s[|s| - 1].observer == peer {
        OthersOfStranger(front, peer);
      } else {
        OthersLosesOne(front, peer);
      }
    }
  }

  lemma {:induction false} LatestOnePerPeer(reports: seq<Observation>)
    ensures OnePerPeer(Latest(reports))
  {
    if reports != [] {
      var front, last := reports[..|reports| - 1], reports[|reports| - 1];
      LatestOnePerPeer(front);
      OthersOnePerPeer(Latest(front), last.observer);
      var others := Others(Latest(front), last.observer);
      forall i | 0 <= i < |others|
        ensures others[i].observer != last.observer
      {
        assert others[i] in others;
      }
    }
  }

  /** One more report keeps the stored list the most recent end of the latest reports. */
  lemma {:induction false} ReportOfLast(all: seq<Observation>, o: Observation, maxSize: nat)
    requires OnePerPeer(all) && maxSize >= 1
    ensures Reported(Last(all, maxSize), o, maxSize) == Last(Others(all, o.observer) + [o], maxSize)
  {
    hide Others, OnePerPeer;
    if |all| > maxSize {
      var n := |all| - maxSize;
      var a, b := all[..n], all[n..];
      assert all == a + b;
      OthersOfParts(a, b, o.observer);
      SuffixOnePerPeer(all, n);
      OthersLosesOne(b, o.observer);
      OthersLosesOne(all, o.observer);
      EndOf(Others(a, o.observer), Others(b, o.observer), o, maxSize);
    }
  }

  lemma {:induction false} SuffixOnePerPeer(s: seq<Observation>, n: nat)
    requires OnePerPeer(s) && n <= |s|
    ensures OnePerPeer(s[n..])
  {
  }

  lemma {:induction false} EndOf(a: seq<Observation>, b: seq<Observation>, o: Observation, maxSize: nat)
    requires maxSize >= 1 && maxSize - 1 <= |b| <= maxSize && |a| + |b| >= maxSize
    ensures Last(a + b + [o], maxSize) == (if |b| == maxSize then b[1..] else b) + [o]
  {
  }

  /** After any reports the store holds the last `maxSize` of the latest reports, one per peer. */
  lemma {:induction false} StoredIsLatest(reports: seq<Observation>, maxSize: nat)
    requires maxSize >= 1
    ensures Stored(reports, maxSize) == Last(Latest(reports), maxSize)
  {
    hide Others, Reported;
    if reports != [] {
      var front := reports[..|reports| - 1];
      StoredIsLatest(front, maxSize);
      LatestOnePerPeer(front);
      ReportOfLast(Latest(front), reports[|reports| - 1], maxSize);
    }
  }

  /** `protoCode`. */
  function ProtoCode(reg: Registry, bs: Address): Option<nat> {
    match TakeVarint(bs)
    case None => None
    case Some((code, _)) => if code in reg.protocols then Some(code) else None
  }

  /** `firstProtoCode`. */
  function FirstProtoCode(reg: Registry, bs: Address): Option<nat> {
    match GetPart(reg, bs, 0)
    case None => None
    case Some(part) => ProtoCode(reg, part)
  }

  /** The first part of every observed address that has one. */
  function FirstParts(reg: Registry, s: seq<Observation>): (r: seq<Address>) {
    if s == [] then []
    else
      var rest := FirstParts(reg, s[..|s| - 1]);
      match GetPart(reg, s[|s| - 1].address, 0)
      case None => rest
      case Some(part) => rest + [part]
  }

  /** The peers whose report starts with the given part. */
  function Reporters(reg: Registry, s: seq<Observation>, part: Address): set<PeerId> {
    set i | 0 <= i < |s| && GetPart(reg, s[i].address, 0) == Some(part) :: s[i].observer
  }

  /** Counting first parts counts the distinct peers that report them. */
  lemma {:induction false} CountIsReporters(reg: Registry, s: seq<Observation>, part: Address)
    requires OnePerPeer(s)
    ensures multiset(FirstParts(reg, s))[part] == |Reporters(reg, s, part)|
  {
    hide GetPart;
    if s == [] {
      assert Reporters(reg, s, part) == {};
    } else {
      var front, last := s[..|s| - 1], s[|s| - 1];
      CountIsReporters(reg, front, part);
      if GetPart(reg, last.address, 0) == Some(part) {
        assert Reporters(reg, s, part) == Reporters(reg, front, part) + {last.observer} by {
          ReportersGrow(reg, s, part);
        }
        assert last.observer !in Reporters(reg, front, part);
      } else {
        ReportersGrow(reg, s, part);
      }
    }
  }

  lemma {:induction false} ReportersGrow(reg: Registry, s: seq<Observation>, part: Address)
    requires s != []
    ensures var front, last := s[..|s| - 1], s[|s| - 1];
            Reporters(reg, s, part) ==
            Reporters(reg, front, part) + if GetPart(reg, last.address, 0) == Some(part) then {last.observer} else {}
  {
    hide GetPart;
    var front, last := s[..|s| - 1], s[|s| - 1];
    forall p
      ensures p in Reporters(reg, s, part) <==>
              p in Reporters(reg, front, part) || (GetPart(reg, last.address, 0) == Some(part) && p == last.observer)
    {
      if p in Reporters(reg, s, part) {
        var i :| 0 <= i < |s| && GetPart(reg, s[i].address, 0) == Some(part) && s[i].observer == p;
        if i < |front| {
          assert front[i] == s[i];
        }
      }
      if p in Reporters(reg, front, part) {
        var i :| 0 <= i < |front| && GetPart(reg, front[i].address, 0) == Some(part) && front[i].observer == p;
        assert s[i] == front[i];
      }
      if GetPart(reg, last.address, 0) == Some(part) && p == last.observer {
        assert s[|s| - 1] == last;
      }
    }
  }

  /** A count table. */
  method CountTable(s: seq<Address>) returns (counts: map<Address, nat>)
    ensures forall a :: a in counts <==> a in s
    ensures forall a :: a in counts ==> counts[a] == multiset(s)[a]
  {
    counts := map[];
    for i := 0 to |s|
      invariant forall a :: a in counts <==> a in s[..i]
      invariant forall a :: a in counts ==> counts[a] == multiset(s[..i])[a]
    {
      assert s[..i + 1] == s[..i] + [s[i]];
      counts := counts[s[i] := if s[i] in counts then counts[s[i]] + 1 else 1];
    }
    assert s[..|s|] == s;
  }

  lemma {:induction false} LargestExists(counts: map<Address, nat>, keys: set<Address>)
    requires keys != {} && keys <= counts.Keys
    ensures exists a :: a in keys && forall b :: b in keys ==> counts[b] <= counts[a]
    decreases |keys|
  {
    var a :| a in keys;
    if keys - {a} == {} {
      forall b | b in keys
        ensures b == a
      {
        assert b !in keys - {a};
      }
    } else {
      LargestExists(counts, keys - {a});
      var c :| c in keys - {a} && forall b :: b in keys - {a} ==> counts[b] <= counts[c];
      forall b | b in keys
        ensures counts[b] <= counts[if counts[a] <= counts[c] then c else a]
      {
        assert b == a || b in keys - {a};
      }
      assert (if counts[a] <= counts[c] then c else a) in keys;
    }
  }

  /** `mostObserved`: the table is read by falling count, in any order among equals. The answer reaches the
      minimum and no address of the same protocol is reported more often. */
  method MostObserved(reg: Registry, s: seq<Address>, code: nat, minCount: nat) returns (r: Option<Address>)
    ensures r.Some? ==>
              && r.value in s && FirstProtoCode(reg, r.value) == Some(code)
              && multiset(s)[r.value] >= minCount
              && forall a :: a in s && FirstProtoCode(reg, a) == Some(code) ==> multiset(s)[a] <= multiset(s)[r.value]
    ensures r.None? ==> forall a :: a in s && FirstProtoCode(reg, a) == Some(code) ==> multiset(s)[a] < minCount
  {
    hide FirstProtoCode;
    var counts := CountTable(s);
    var todo := counts.Keys;
    while todo != {}
      invariant todo <= counts.Keys
      invariant forall a :: a in counts && a !in todo ==>
                  !(FirstProtoCode(reg, a) == Some(code) && counts[a] >= minCount)
      decreases |todo|
    {
      LargestExists(counts, todo);
      var a :| a in todo && forall b :: b in todo ==> counts[b] <= counts[a];
      if FirstProtoCode(reg, a) == Some(code) && counts[a] >= minCount {
        return Some(a);
      }
      todo := todo - {a};
    }
    r := None;
  }

  /** `mostObservedIp`. */
  method MostObservedPart(reg: Registry, s: seq<Observation>, code: nat, minCount: nat) returns (r: Option<Address>)
    requires OnePerPeer(s)
    ensures r.Some? ==> MostReported(reg, s, code, minCount, r.value)
    ensures r.None? ==> forall part :: FirstProtoCode(reg, part) == Some(code) && part in FirstParts(reg, s) ==>
                          |Reporters(reg, s, part)| < minCount
  {
    hide FirstProtoCode, Reporters, GetPart;
    var parts: seq<Address> := [];
    for i := 0 to |s|
      invariant parts == FirstParts(reg, s[..i])
    {
      assert s[..i + 1][..i] == s[..i];
      var part := GetPart(reg, s[i].address, 0);
      if part.Some? {
        parts := parts + [part.value];
      }
    }
    assert s[..|s|] == s;
    r := MostObserved(reg, parts, code, minCount);
    forall part
      ensures multiset(parts)[part] == |Reporters(reg, s, part)|
    {
      CountIsReporters(reg, s, part);
    }
  }

  /** The part is of the protocol, enough distinct peers report it, and no part of that protocol has more. */
  ghost predicate MostReported(reg: Registry, s: seq<Observation>, code: nat, minCount: nat, part: Address) {
    && FirstProtoCode(reg, part) == Some(code)
    && part in FirstParts(reg, s)
    && |Reporters(reg, s, part)| >= minCount
    && forall other :: FirstProtoCode(reg, other) == Some(code) && other in FirstParts(reg, s) ==>
         |Reporters(reg, s, other)| <= |Reporters(reg, s, part)|
  }

  /** `listenAddr[1 .. ^1]`. */
  function WithoutFirst(reg: Registry, bs: Address): Option<Address> {
    if Items(reg, bs).complete then SliceOf(reg, bs, 1, |Items(reg, bs).parts| - 1) else None
  }

  /** `externalAddrFor`: an address other than the given one has a most reported first part of the same
      protocol and the given rest; the given one comes back only if it has no such rest, no part reaches the
      minimum, or the two do not join. */
  method ExternalAddrFor(reg: Registry, s: seq<Observation>, minCount: nat, listenAddr: Address) returns (r: Address)
    requires OnePerPeer(s)
    ensures r == listenAddr || Substitutes(reg, s, minCount, listenAddr, r)
    ensures r == listenAddr ==> Kept(reg, s, minCount, listenAddr)
  {
    hide FirstProtoCode, Reporters, Items, SliceOf, FirstParts, Valid;
    var rest := WithoutFirst(reg, listenAddr);
    var code := FirstProtoCode(reg, listenAddr);
    if rest.None? || code.None? {
      return listenAddr;
    }
    var observed := MostObservedPart(reg, s, code.value, minCount);
    if observed.None? {
      return listenAddr;
    }
    var joined := Concat(reg, observed.value, rest.value);
    r := if joined.Some? then joined.value else listenAddr;
    if joined.Some? {
      assert Substitute(reg, s, minCount, listenAddr, observed.value, r);
    } else {
      assert MostReported(reg, s, code.value, minCount, observed.value);
    }
  }

  ghost predicate Substitute(reg: Registry, s: seq<Observation>, minCount: nat, listenAddr: Address, part: Address, r: Address) {
    && WithoutFirst(reg, listenAddr).Some? && FirstProtoCode(reg, listenAddr).Some?
    && MostReported(reg, s, FirstProtoCode(reg, listenAddr).value, minCount, part)
    && Concat(reg, part, WithoutFirst(reg, listenAddr).value) == Some(r)
  }

  ghost predicate Substitutes(reg: Registry, s: seq<Observation>, minCount: nat, listenAddr: Address, r: Address) {
    exists part :: Substitute(reg, s, minCount, listenAddr, part, r)
  }

  /** Why an address is not replaced by another. */
  ghost predicate Kept(reg: Registry, s: seq<Observation>, minCount: nat, listenAddr: Address) {
    || WithoutFirst(reg, listenAddr).None?
    || FirstProtoCode(reg, listenAddr).None?
    || (forall part :: FirstProtoCode(reg, part) == FirstProtoCode(reg, listenAddr) && part in FirstParts(reg, s) ==>
          |Reporters(reg, s, part)| < minCount)
    || exists part :: MostReported(reg, s, FirstProtoCode(reg, listenAddr).value, minCount, part) &&
                      Concat(reg, part, WithoutFirst(reg, listenAddr).value) in {None, Some(listenAddr)}
  }

  lemma {:induction false} CodeOfFirst(reg: Registry, c: Component, rest: Address)
    requires Readable(reg, c)
    ensures FirstProtoCode(reg, PartBytes(reg, c) + rest) == Some(c.code)
  {
    hide Leb128, TakeVarint, Framed, Head;
    HeadEncoded(reg, c, rest);
    var body := Framed(reg.protocols[c.code], c.payload);
    TakeVarintIff(PartBytes(reg, c), c.code, body);
  }

  /** On a valid address the substitution changes the first part and nothing else. */
  lemma {:induction false} SubstituteKeepsRest(
    reg: Registry, s: seq<Observation>, minCount: nat, listenAddr: Address, c: Component, r: Address)
    requires Sound(reg) && Valid(reg, listenAddr) && listenAddr != []
    requires Readable(reg, c)
    requires Substitute(reg, s, minCount, listenAddr, PartBytes(reg, c), r)
    ensures Valid(reg, r) && Items(reg, r).parts != [] && Items(reg, listenAddr).parts != []
    ensures Items(reg, r).parts == [c] + Items(reg, listenAddr).parts[1..]
    ensures c.code == Items(reg, listenAddr).parts[0].code
  {
    hide Items, Head, PartBytes, Valid, SliceOf, FirstProtoCode, MostReported;
    FirstOfValid(reg, listenAddr);
    var parts := Items(reg, listenAddr).parts;
    var n := |parts|;
    SliceOfValid(reg, listenAddr, 1, n - 1);
    SubsetAccepted(reg, listenAddr, 1, n);
    assert parts[1..n] == parts[1..];
    FlattenNone(reg);
    var rest := Flatten(reg, parts[1..]);
    assert r == PartBytes(reg, c) + rest;
    HeadEncoded(reg, c, rest);
    FirstOfValid(reg, r);
    assert Concat(reg, PartBytes(reg, c), rest) == Some(r);
    CodeOfFirst(reg, c, []);
    assert PartBytes(reg, c) + [] == PartBytes(reg, c);
    assert FirstProtoCode(reg, PartBytes(reg, c)) == FirstProtoCode(reg, listenAddr) by {
      MostReportedCode(reg, s, FirstProtoCode(reg, listenAddr).value, minCount, PartBytes(reg, c));
    }
  }

  lemma {:induction false} FlattenNone(reg: Registry)
    ensures Flatten(reg, []) == []
  {
  }

  lemma {:induction false} MostReportedCode(reg: Registry, s: seq<Observation>, code: nat, minCount: nat, part: Address)
    requires MostReported(reg, s, code, minCount, part)
    ensures FirstProtoCode(reg, part) == Some(code)
  {
  }

  /** A valid address starts with its first item. */
  lemma {:induction false} FirstOfValid(reg: Registry, bs: Address)
    requires Sound(reg) && Valid(reg, bs) && bs != []
    ensures var parts := Items(reg, bs).parts;
            Items(reg, bs).complete && parts != [] && Head(reg, bs).Some? && Head(reg, bs).value.0 == parts[0] &&
            parts[1..] == Items(reg, Head(reg, bs).value.1).parts &&
            FirstProtoCode(reg, bs) == Some(parts[0].code)
  {
    hide Head, PartBytes, FirstProtoCode;
    ValidIffItems(reg, bs);
    var (c, rest) := Head(reg, bs).value;
    HeadSplits(reg, bs, c, rest);
    CodeOfFirst(reg, c, rest);
  }
}
