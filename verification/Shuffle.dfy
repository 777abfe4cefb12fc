/** The in-place shuffle of `libp2p/crypto/rng.nim`: which orders it produces, and from which bytes. */
module Shuffles {
  import opened Basics
  import opened Rng

  /** A rearrangement of places. */
  ghost predicate Rearranges(places: seq<nat>, n: nat) {
    |places| == n && Distinct(places) && Below(places, n)
  }

  /** Where `k` steps along the arrangement lead from `a`. */
  function Follow(p: seq<nat>, a: nat, k: nat): (b: nat)
    requires Below(p, |p|) && a < |p|
    ensures b < |p|
  {
    if k == 0 then a else p[Follow(p, a, k - 1)]
  }

  /** One or more steps lead from the first place to `b`. */
  ghost predicate Reaches(p: seq<nat>, b: nat)
    requires Below(p, |p|) && |p| > 0
  {
    exists k: nat :: k > 0 && Follow(p, 0, k) == b
  }

  /** A rearrangement that is one cycle: from the first place it leads through all and back. */
  ghost predicate SingleCycle(p: seq<nat>) {
    |p| > 0 && Rearranges(p, |p|) && forall b :: 0 <= b < |p| ==> Reaches(p, b)
  }

  /** The arrangement with one more place, put into the cycle in front of `y`. */
  function Insert(s: seq<nat>, y: nat): (r: seq<nat>)
    ensures |r| == |s| + 1
  {
    seq(|s|, k requires 0 <= k < |s| => if s[k] == y then |s| else s[k]) + [y]
  }

  /** The arrangement without its last place. */
  function Removed(p: seq<nat>): (r: seq<nat>)
    requires p != []
    ensures |r| == |p| - 1
  {
    var m := |p| - 1;
    seq(m, k requires 0 <= k < m => if p[k] == m then p[m] else p[k])
  }

  /** A place below each but the first: `ys[i - 1]` for place `i`. */
  predicate Choices(ys: seq<nat>) {
    forall k :: 0 <= k < |ys| ==> ys[k] <= k
  }

  /** The order of `|ys| + 1` elements that comes from swapping each place, from the last down, with the
      chosen one. */
  function Built(ys: seq<nat>): (r: seq<nat>)
    ensures |r| == |ys| + 1
  {
    if ys == [] then [0] else Insert(Built(ys[..|ys| - 1]), ys[|ys| - 1])
  }

  /** The choices an order comes from. */
  function ChoicesOf(p: seq<nat>): (ys: seq<nat>)
    requires p != []
    ensures |ys| == |p| - 1
    decreases |p|
  {
    if |p| == 1 then [] else ChoicesOf(Removed(p)) + [p[|p| - 1]]
  }

  lemma {:induction false} InsertRearranges(s: seq<nat>, y: nat)
    requires Rearranges(s, |s|) && y < |s|
    ensures Rearranges(Insert(s, y), |s| + 1)
  {
  }

  /** A step of the shorter cycle is one or two steps of the longer. */
  lemma {:induction false} InsertReaches(s: seq<nat>, y: nat, k: nat) returns (j: nat)
    requires |s| > 0 && Rearranges(s, |s|) && y < |s|
    requires Below(Insert(s, y), |s| + 1)
    ensures Follow(Insert(s, y), 0, j) == Follow(s, 0, k) && (k > 0 ==> j > 0)
  {
    var r := Insert(s, y);
    if k == 0 {
      j := 0;
    } else {
      var i := InsertReaches(s, y, k - 1);
      var a := Follow(s, 0, k - 1);
      assert Follow(r, 0, i + 1) == r[a];
      if s[a] == y {
        assert Follow(r, 0, i + 2) == r[|s|] == y;
        j := i + 2;
      } else {
        j := i + 1;
      }
    }
  }

  lemma {:induction false} RemovedRearranges(p: seq<nat>)
    requires p != [] && Rearranges(p, |p|)
    ensures Rearranges(Removed(p), |p| - 1)
  {
  }

  /** Putting a place into a cycle gives a cycle. */
  lemma {:induction false} InsertIsCycle(s: seq<nat>, y: nat)
    requires SingleCycle(s) && y < |s|
    ensures SingleCycle(Insert(s, y))
  {
    hide Insert, Distinct;
    InsertRearranges(s, y);
    var r := Insert(s, y);
    forall b | 0 <= b < |r|
      ensures Reaches(r, b)
    {
      var target := if b < |s| then b else y;
      assert Reaches(s, target);
      var k: nat :| k > 0 && Follow(s, 0, k) == target;
      if b < |s| {
        var j := InsertReaches(s, y, k);
      } else {
        var a := Follow(s, 0, k - 1);
        var j := InsertReaches(s, y, k - 1);
        InsertLeads(s, y, a);
        assert Follow(r, 0, j + 1) == r[a];
      }
    }
  }

  lemma {:induction false} InsertLeads(s: seq<nat>, y: nat, a: nat)
    requires a < |s| && s[a] == y
    ensures Insert(s, y)[a] == |s|
  {
  }

  /** A place that keeps its element is reached from itself only. */
  lemma {:induction false} FixedIsAlone(p: seq<nat>, b: nat, k: nat)
    requires |p| > 0 && Rearranges(p, |p|) && b < |p| && p[b] == b
    requires Follow(p, 0, k) == b
    ensures b == 0
  {
    if k > 0 {
      assert p[Follow(p, 0, k - 1)] == p[b];
      FixedIsAlone(p, b, k - 1);
    }
  }

  lemma {:induction false} StartIsAlone(p: seq<nat>, k: nat)
    requires |p| > 0 && Rearranges(p, |p|) && p[0] == 0
    ensures Follow(p, 0, k) == 0
  {
    if k > 0 {
      StartIsAlone(p, k - 1);
    }
  }

  /** On a cycle through two or more places no element keeps its place. */
  lemma {:induction false} CycleMovesAll(p: seq<nat>, b: nat)
    requires SingleCycle(p) && |p| >= 2 && b < |p|
    ensures p[b] != b
  {
    hide Distinct;
    assert Reaches(p, b) && Reaches(p, 1);
    var k: nat, j: nat :| Follow(p, 0, k) == b && Follow(p, 0, j) == 1;
    if p[b] == b {
      FixedIsAlone(p, b, k);
      StartIsAlone(p, j);
    }
  }

  /** Taking the last place out of a cycle leaves one: its steps skip that place. */
  lemma {:induction false} RemovedReaches(p: seq<nat>, k: nat) returns (j: nat)
    requires |p| >= 2 && Rearranges(p, |p|) && p[|p| - 1] < |p| - 1 && Below(Removed(p), |p| - 1)
    requires Follow(p, 0, k) < |p| - 1
    ensures Follow(Removed(p), 0, j) == Follow(p, 0, k) && (k > 0 ==> j > 0)
  {
    var m, q := |p| - 1, Removed(p);
    if k == 0 {
      j := 0;
    } else {
      var a := Follow(p, 0, k - 1);
      var c := if a < m then a else Follow(p, 0, k - 2);
      var i;
      if a < m {
        i := RemovedReaches(p, k - 1);
      } else {
        assert p[c] == m;
        i := RemovedReaches(p, k - 2);
      }
      assert Follow(q, 0, i + 1) == q[c];
      j := i + 1;
    }
  }

  lemma {:induction false} RemovedIsCycle(p: seq<nat>)
    requires SingleCycle(p) && |p| >= 2
    ensures SingleCycle(Removed(p)) && p[|p| - 1] < |p| - 1
    ensures Insert(Removed(p), p[|p| - 1]) == p
  {
    var m, q := |p| - 1, Removed(p);
    RemovedRearranges(p);
    CycleMovesAll(p, m);
    InsertUndoes(p);
    forall b | 0 <= b < m
      ensures Reaches(q, b)
    {
      assert Reaches(p, b);
      var k: nat :| k > 0 && Follow(p, 0, k) == b;
      var j := RemovedReaches(p, k);
    }
  }

  lemma {:induction false} InsertUndoes(p: seq<nat>)
    requires p != [] && Rearranges(p, |p|) && p[|p| - 1] != |p| - 1
    ensures Insert(Removed(p), p[|p| - 1]) == p
  {
  }

  /** Every order the shuffle builds is a single cycle. */
  lemma {:induction false} BuiltIsCycle(ys: seq<nat>)
    requires Choices(ys)
    ensures SingleCycle(Built(ys))
  {
    hide Insert, SingleCycle;
    if ys == [] {
      OneIsCycle();
    } else {
      BuiltIsCycle(ys[..|ys| - 1]);
      InsertIsCycle(Built(ys[..|ys| - 1]), ys[|ys| - 1]);
    }
  }

  lemma {:induction false} OneIsCycle()
    ensures SingleCycle([0])
  {
    assert Follow([0], 0, 1) == 0;
  }

  /** Every single cycle is built, and from these choices. */
  lemma {:induction false} CycleIsBuilt(p: seq<nat>)
    requires SingleCycle(p)
    ensures Choices(ChoicesOf(p)) && Built(ChoicesOf(p)) == p
    decreases |p|
  {
    hide Insert, Removed, SingleCycle;
    ShortCycle(p);
    if |p| > 1 {
      RemovedIsCycle(p);
      CycleIsBuilt(Removed(p));
      assert ChoicesOf(p)[..|p| - 2] == ChoicesOf(Removed(p));
    }
  }

  lemma {:induction false} ShortCycle(p: seq<nat>)
    requires SingleCycle(p)
    ensures p != [] && (|p| == 1 ==> p == [0])
  {
  }

  lemma {:induction false} RemovedUndoes(s: seq<nat>, y: nat)
    requires Rearranges(s, |s|) && y < |s|
    ensures Removed(Insert(s, y)) == s
  {
  }

  /** No other choices build the same order. */
  lemma {:induction false} ChoicesUnique(ys: seq<nat>)
    requires Choices(ys)
    ensures ChoicesOf(Built(ys)) == ys
  {
    if ys != [] {
      var front, y := ys[..|ys| - 1], ys[|ys| - 1];
      ChoicesUnique(front);
      BuiltIsCycle(front);
      RemovedUndoes(Built(front), y);
      assert ys == front + [y];
    }
  }

  /** An order comes from some choice of places exactly if it is a single cycle, and then from one only. */
  lemma {:induction false} BuiltIff(p: seq<nat>, ys: seq<nat>)
    requires p != []
    ensures Choices(ys) && Built(ys) == p <==> SingleCycle(p) && ys == ChoicesOf(p)
  {
    hide Built, ChoicesOf, SingleCycle, Choices;
    if SingleCycle(p) {
      CycleIsBuilt(p);
    }
    if Choices(ys) {
      BuiltIsCycle(ys);
      ChoicesUnique(ys);
    }
  }

  /** The elements of `was` in the order of `places`. */
  ghost predicate Shows<T>(now: seq<T>, was: seq<T>, places: seq<nat>) {
    |now| == |was| == |places| && Below(places, |was|) && forall k :: 0 <= k < |now| ==> now[k] == was[places[k]]
  }

  lemma {:induction false} ShowsSwapped<T>(now: seq<T>, was: seq<T>, places: seq<nat>, i: nat, j: nat)
    requires Shows(now, was, places) && i < |now| && j < |now|
    ensures Shows(Swapped(now, i, j), was, Swapped(places, i, j))
    ensures multiset(Swapped(now, i, j)) == multiset(now)
  {
  }

  lemma {:induction false} ShowsIdentity<T>(s: seq<T>)
    ensures Shows(s, s, Identity(|s|))
  {
  }

  lemma {:induction false} BuiltBelow(ys: seq<nat>)
    requires Choices(ys)
    ensures Below(Built(ys), |ys| + 1)
  {
    hide Built;
    BuiltIsCycle(ys);
  }

  /** The order to come: what is left to do at the places up to `i`, behind what is done. */
  ghost predicate OnTheWay(places: seq<nat>, ys: seq<nat>, i: nat)
    requires Choices(ys)
  {
    && |places| == |ys| + 1 && i <= |ys|
    && Below(Built(ys[..i]), i + 1)
    && forall k :: 0 <= k < |places| ==> Built(ys)[k] == places[if k <= i then Built(ys[..i])[k] else k]
  }

  lemma {:induction false} SetsOut(ys: seq<nat>)
    requires Choices(ys)
    ensures OnTheWay(Identity(|ys| + 1), ys, |ys|)
  {
    hide Built;
    assert ys[..|ys|] == ys;
    BuiltBelow(ys);
  }

  lemma {:induction false} Arrives(places: seq<nat>, ys: seq<nat>)
    requires Choices(ys) && OnTheWay(places, ys, 0)
    ensures places == Built(ys)
  {
    assert Built(ys[..0]) == [0];
  }

  /** One swap of the loop is one place put into the cycle. */
  lemma {:induction false} MovesOn(places: seq<nat>, ys: seq<nat>, i: nat)
    requires Choices(ys) && 0 < i <= |ys| && OnTheWay(places, ys, i)
    ensures OnTheWay(Swapped(places, i, ys[i - 1]), ys, i - 1)
  {
    assert ys[..i][..i - 1] == ys[..i - 1];
    var before, after := Built(ys[..i - 1]), Built(ys[..i]);
    assert after == Insert(before, ys[i - 1]);
    BuiltBelow(ys[..i - 1]);
    forall k | 0 <= k < |places|
      ensures Built(ys)[k] == Swapped(places, i, ys[i - 1])[if k <= i - 1 then before[k] else k]
    {
      SwapIsInsert(places, before, i, ys[i - 1], k);
      assert Built(ys)[k] == places[if k <= i then after[k] else k];
    }
  }

  lemma {:induction false} SwapIsInsert(places: seq<nat>, s: seq<nat>, i: nat, y: nat, k: nat)
    requires |s| == i && Below(s, i) && y < i < |places| && k < |places|
    requires Below(Insert(s, y), i + 1)
    ensures Swapped(places, i, y)[if k < i then s[k] else k] == places[if k <= i then Insert(s, y)[k] else k]
  {
    var r := Insert(s, y);
    if k < i {
      assert r[k] == if s[k] == y then i else s[k];
    } else if k == i {
      assert r[k] == y;
    }
  }

  /** The swaps of the loop: each place, from the last down, with the one chosen for it. */
  function SwapDown<T>(s: seq<T>, ys: seq<nat>, i: nat): seq<T>
    requires i <= |ys| < |s| && Choices(ys)
    decreases i
  {
    if i == 0 then s
    else
      var y := ys[i - 1];
      SwapDown(s[i := s[y]][y := s[i]], ys, i - 1)
  }

  /** The built order is what the swaps leave. */
  lemma {:induction false} BuiltBySwaps(ys: seq<nat>)
    requires Choices(ys)
    ensures SwapDown(Identity(|ys| + 1), ys, |ys|) == Built(ys)
  {
    hide Built, OnTheWay;
    SetsOut(ys);
    SwapsArrive(Identity(|ys| + 1), ys, |ys|);
  }

  lemma {:induction false} SwapsArrive(places: seq<nat>, ys: seq<nat>, i: nat)
    requires Choices(ys) && i <= |ys| && |places| == |ys| + 1 && OnTheWay(places, ys, i)
    ensures SwapDown(places, ys, i) == Built(ys)
    decreases i
  {
    hide Built, OnTheWay;
    if i == 0 {
      Arrives(places, ys);
    } else {
      MovesOn(places, ys, i);
      SwapsArrive(Swapped(places, i, ys[i - 1]), ys, i - 1);
    }
  }

  /** The place below `i` that two random bytes name. */
  function Place(low: byte, high: byte, i: nat): (y: nat)
    requires i > 0
    ensures y < i
  {
    Pair(low, high) % i
  }

  function Pair(low: byte, high: byte): (v: nat)
    ensures v < 0x1_0000
  {
    low + 0x100 * high
  }

  /** The places the bytes choose. */
  function ChosenBy(bytes: seq<byte>): (ys: seq<nat>)
    requires |bytes| >= 2
    ensures |ys| == |bytes| / 2 - 1 && Choices(ys)
    ensures forall k :: 0 <= k < |ys| ==> ys[k] == (bytes[2 * k + 2] + 256 * bytes[2 * k + 3]) % (k + 1)
  {
    seq(|bytes| / 2 - 1, k requires 0 <= k < |bytes| / 2 - 1 => Place(bytes[2 * k + 2], bytes[2 * k + 3], k + 1))
  }

  /** `shuffle` on the given bytes: the elements in the order the chosen places build. */
  method Shuffle<T>(x: array<T>, randValues: seq<byte>) returns (ghost places: seq<nat>)
    requires |randValues| == 2 * x.Length
    modifies x
    ensures Shows(x[..], old(x[..]), places) && multiset(x[..]) == multiset(old(x[..]))
    ensures x.Length > 0 ==> places == Built(ChosenBy(randValues)) && SingleCycle(places)
  {
    hide Swapped, Shows, Place, OnTheWay, SingleCycle, Built;
    ghost var was := x[..];
    var n := x.Length;
    places := Identity(n);
    ShowsIdentity(was);
    if n == 0 {
      return;
    }
    ghost var ys := ChosenBy(randValues);
    SetsOut(ys);
    BuiltIsCycle(ys);
    var i := n - 1;
    while i >= 1
      invariant 0 <= i < n
      invariant OnTheWay(places, ys, i)
      invariant Shows(x[..], was, places)
      invariant multiset(x[..]) == multiset(was)
    {
      var y := Place(randValues[i * 2], randValues[i * 2 + 1], i);
      assert y == ys[i - 1];
      MovesOn(places, ys, i);
      ShowsLength(x[..], was, places);
      ShowsSwapped(x[..], was, places, i, y);
      SwapAt(x, i, y);
      places := Swapped(places, i, y);
      i := i - 1;
    }
    Arrives(places, ys);
  }

  lemma {:induction false} ShowsLength<T>(now: seq<T>, was: seq<T>, places: seq<nat>)
    requires Shows(now, was, places)
    ensures |now| == |was| == |places|
  {
  }

  /** Two bytes name a place exactly if it is one of the first 65536. */
  lemma {:induction false} NamedIff(y: nat, i: nat)
    requires y < i
    ensures (exists low: byte, high: byte :: Place(low, high, i) == y) <==> y < 0x1_0000
  {
    hide Place;
    if y < 0x1_0000 {
      PlaceOf(y, i);
    }
    if low: byte, high: byte :| Place(low, high, i) == y {
      PlaceSmall(low, high, i);
    }
  }

  lemma {:induction false} PlaceSmall(low: byte, high: byte, i: nat)
    requires i > 0
    ensures Place(low, high, i) < 0x1_0000
  {
    var v := Pair(low, high);
    var q, r := v / i, v % i;
    assert v == q * i + r && q * i >= 0;
  }

  lemma {:induction false} PlaceOf(y: nat, i: nat)
    requires y < i && y < 0x1_0000
    ensures Place(y % 0x100, y / 0x100, i) == y
  {
    DivUnique(y, i, 0, y);
  }

  /** The bytes that name the given places. */
  function BytesFor(ys: seq<nat>): (bytes: seq<byte>)
    requires forall k :: 0 <= k < |ys| ==> ys[k] < 0x1_0000
    ensures |bytes| == 2 * |ys| + 2
  {
    if ys == [] then [0, 0]
    else BytesFor(ys[..|ys| - 1]) + [ys[|ys| - 1] % 0x100, ys[|ys| - 1] / 0x100]
  }

  lemma {:induction false} BytesChoose(ys: seq<nat>)
    requires Choices(ys)
    requires forall k :: 0 <= k < |ys| ==> ys[k] < 0x1_0000
    ensures ChosenBy(BytesFor(ys)) == ys
  {
    hide Place;
    if ys != [] {
      var front, y := ys[..|ys| - 1], ys[|ys| - 1];
      BytesChoose(front);
      PlaceOf(y, |ys|);
      var bytes := BytesFor(ys);
      assert bytes[..2 * |ys|] == BytesFor(front);
      forall k | 0 <= k < |ys|
        ensures ChosenBy(bytes)[k] == ys[k]
      {
        if k < |front| {
          assert ChosenBy(BytesFor(front))[k] == front[k];
        }
      }
    }
  }

  lemma {:induction false} ChosenSmall(bytes: seq<byte>, k: nat)
    requires |bytes| >= 2 && k < |bytes| / 2 - 1
    ensures ChosenBy(bytes)[k] < 0x1_0000
  {
    hide Place;
    PlaceSmall(bytes[2 * k + 2], bytes[2 * k + 3], k + 1);
  }

  /** The orders that come out, and from which bytes: single cycles whose choices two bytes can name. Up to
      65537 elements these are all single cycles. */
  lemma {:induction false} OrdersIff(p: seq<nat>)
    requires p != []
    ensures (exists bytes: seq<byte> :: |bytes| == 2 * |p| && Built(ChosenBy(bytes)) == p)
            <==> SingleCycle(p) && forall k :: 0 <= k < |p| - 1 ==> ChoicesOf(p)[k] < 0x1_0000
    ensures |p| <= 0x1_0001 && SingleCycle(p) ==> forall k :: 0 <= k < |p| - 1 ==> ChoicesOf(p)[k] < 0x1_0000
  {
    hide Built, ChoicesOf, SingleCycle, ChosenBy, BytesFor;
    var ys := ChoicesOf(p);
    BuiltIff(p, ys);
    if bytes: seq<byte> :| |bytes| == 2 * |p| && Built(ChosenBy(bytes)) == p {
      BuiltIff(p, ChosenBy(bytes));
      forall k | 0 <= k < |p| - 1
        ensures ys[k] < 0x1_0000
      {
        ChosenSmall(bytes, k);
      }
    }
    if SingleCycle(p) && forall k :: 0 <= k < |p| - 1 ==> ys[k] < 0x1_0000 {
      BytesChoose(ys);
      assert |BytesFor(ys)| == 2 * |p| && Built(ChosenBy(BytesFor(ys))) == p;
    }
  }

  /** How many of the byte pairs name a place: the lower ones of an uneven division one more. */
  lemma {:induction false} PlaceHits(i: nat, y: nat)
    requires y < i
    ensures |Hits(0, 0x1_0000, i, y)| == 0x1_0000 / i + if y < 0x1_0000 % i then 1 else 0
  {
    var q, r := 0x1_0000 / i, 0x1_0000 % i;
    assert 0x1_0000 == q * i + r;
    HitsPerRound(0, q, i, y);
    DivUnique(q * i + y, i, q, y);
    forall w: nat
      ensures w in Hits(0, 0x1_0000, i, y) <==> w in Hits(0, q * i, i, y) || (y < r && w == q * i + y)
    {
      if q * i <= w < 0x1_0000 {
        DivUnique(w, i, q, w - q * i);
      }
    }
    assert Hits(0, 0x1_0000, i, y) == Hits(0, q * i, i, y) + if y < r then {q * i + y} else {};
  }

  /** The choice below `i` is even exactly if `i` divides 65536. */
  lemma {:induction false} EvenIff(i: nat)
    requires i > 0
    ensures (forall y, z :: 0 <= y < i && 0 <= z < i ==> |Hits(0, 0x1_0000, i, y)| == |Hits(0, 0x1_0000, i, z)|)
            <==> 0x1_0000 % i == 0
  {
    hide Hits;
    forall y | 0 <= y < i
      ensures |Hits(0, 0x1_0000, i, y)| == 0x1_0000 / i + if y < 0x1_0000 % i then 1 else 0
    {
      PlaceHits(i, y);
    }
    if 0x1_0000 % i > 0 {
      assert |Hits(0, 0x1_0000, i, 0)| != |Hits(0, 0x1_0000, i, i - 1)|;
    }
  }
}
