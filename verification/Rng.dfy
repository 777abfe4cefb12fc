/** Unbiased sampling of `libp2p/crypto/rng.nim`: rejection sampling, ranges and ordered picks. The random
    bytes are parameters. */
module Rng {
  import opened Basics

  const TWO32 := 0x1_0000_0000
  const TWO64 := 0x1_0000_0000_0000_0000
  const INT_MIN := -0x8000_0000_0000_0000
  const INT_MAX := 0x7FFF_FFFF_FFFF_FFFF

  /** Four random bytes. */
  datatype Draw = Draw(b0: byte, b1: byte, b2: byte, b3: byte)

  function Word(d: Draw): (w: nat)
    ensures w < TWO32
  {
    d.b0 + 0x100 * d.b1 + 0x1_0000 * d.b2 + 0x100_0000 * d.b3
  }

  function DrawOf(w: nat): Draw
    requires w < TWO32
  {
    var x1 := w / 0x100;
    var x2 := x1 / 0x100;
    Draw(w % 0x100, x1 % 0x100, x2 % 0x100, x2 / 0x100)
  }

  /** Every 32-bit word comes from exactly one draw. */
  lemma {:induction false} WordBijection(d: Draw, w: nat)
    requires w < TWO32
    ensures Word(d) == w <==> d == DrawOf(w)
  {
    if d == DrawOf(w) {
      WordOfDraw(w);
    }
    if Word(d) == w {
      DrawOfWord(d);
    }
  }

  lemma {:induction false} WordOfDraw(w: nat)
    requires w < TWO32
    ensures Word(DrawOf(w)) == w
  {
  }

  lemma {:induction false} DrawOfWord(d: Draw)
    ensures DrawOf(Word(d)) == d
  {
    var x2 := d.b2 + 0x100 * d.b3;
    var x1 := d.b1 + 0x100 * x2;
    DivUnique(Word(d), 0x100, x1, d.b0);
    DivUnique(x1, 0x100, x2, d.b1);
    DivUnique(x2, 0x100, d.b3, d.b2);
  }

  lemma {:induction false} SmallMultiple(k: int, m: int)
    requires m > 0 && -m < k * m < m
    ensures k == 0
  {
    assert k >= 1 ==> k * m >= m;
    assert k <= -1 ==> k * m <= -m;
  }

  /** Quotient and remainder are the only numbers with their property. */
  lemma {:induction false} DivUnique(w: int, m: int, q: int, r: int)
    requires m > 0 && w == q * m + r && 0 <= r < m
    ensures w / m == q && w % m == r
  {
    var p, s := w / m, w % m;
    assert w == p * m + s;
    assert (p - q) * m == r - s;
    SmallMultiple(p - q, m);
  }

  /** Words below the threshold are drawn again. */
  function Threshold(max: nat): (t: nat)
    requires 0 < max < TWO32
    ensures t < max
  {
    (TWO32 - max) % max
  }

  /** More than half of all words are taken. */
  lemma {:induction false} TakesMost(max: nat)
    requires 0 < max < TWO32
    ensures Threshold(max) < TWO32 / 2
  {
    if max > TWO32 / 2 {
      DivUnique(TWO32 - max, max, 0, TWO32 - max);
    }
  }

  lemma {:induction false} ThresholdDivides(max: nat)
    requires 0 < max < TWO32
    ensures (TWO32 - Threshold(max)) % max == 0
  {
    var q, t := (TWO32 - max) / max, Threshold(max);
    assert TWO32 - max == q * max + t;
    DivUnique(TWO32 - t, max, q + 1, 0);
  }

  lemma {:induction false} SameResidue(a: nat, b: nat, m: nat)
    requires m > 0 && -(m as int) < b - a < m && a % m == b % m
    ensures a == b
  {
    var p, q := a / m, b / m;
    assert a == p * m + a % m && b == q * m + b % m;
    assert (q - p) * m == b - a;
    SmallMultiple(q - p, m);
  }

  /** The words from `from` on, `n` of them, that give `v`. */
  ghost function Hits(from: nat, n: nat, m: nat, v: nat): set<nat>
    requires m > 0
  {
    set w | from <= w < from + n && w % m == v
  }

  /** The first word from `from` on that gives `v`. */
  function FirstHit(from: nat, m: nat, v: nat): nat
    requires 0 <= v < m
  {
    if from % m <= v then from + (v - from % m) else from + (v + m - from % m)
  }

  lemma {:induction false} FirstHitHits(from: nat, m: nat, v: nat)
    requires 0 <= v < m
    ensures from <= FirstHit(from, m, v) < from + m && FirstHit(from, m, v) % m == v
  {
    var q, r := from / m, from % m;
    assert from == q * m + r;
    if r <= v {
      DivUnique(FirstHit(from, m, v), m, q, v);
    } else {
      assert (q + 1) * m == q * m + m;
      DivUnique(FirstHit(from, m, v), m, q + 1, v);
    }
  }

  /** In a whole number of rounds every value is hit once per round. */
  lemma {:induction false} HitsPerRound(from: nat, rounds: nat, m: nat, v: nat)
    requires 0 <= v < m
    ensures |Hits(from, rounds * m, m, v)| == rounds
    decreases rounds
  {
    if rounds == 0 {
      assert Hits(from, 0, m, v) == {};
    } else {
      var n := (rounds - 1) * m;
      HitsPerRound(from, rounds - 1, m, v);
      FirstHitHits(from + n, m, v);
      var h := FirstHit(from + n, m, v);
      assert rounds * m == n + m;
      forall w
        ensures w in Hits(from, n + m, m, v) <==> w in Hits(from, n, m, v) || w == h
      {
        if from + n <= w < from + n + m && w % m == v {
          SameResidue(w, h, m);
        }
      }
      assert Hits(from, n + m, m, v) == Hits(from, n, m, v) + {h};
    }
  }

  /** Every value below `max` comes from the same number of accepted words. */
  lemma {:induction false} Unbiased(max: nat, v: nat)
    requires 0 <= v < max < TWO32
    ensures |Hits(Threshold(max), TWO32 - Threshold(max), max, v)| == (TWO32 - Threshold(max)) / max
  {
    var t := Threshold(max);
    var q := (TWO32 - t) / max;
    ThresholdDivides(max);
    assert TWO32 - t == q * max;
    HitsPerRound(t, q, max, v);
  }

  /** `randBelow` on the given draws: the first word that is not below the threshold decides. */
  method RandBelow(max: nat, tape: seq<Draw>) returns (r: Option<nat>, used: nat)
    requires 0 < max < TWO32
    ensures used <= |tape|
    ensures r.None? ==> used == |tape| && forall i :: 0 <= i < |tape| ==> Word(tape[i]) < Threshold(max)
    ensures r.Some? ==>
              && used > 0 && r.value < max
              && Word(tape[used - 1]) in Hits(Threshold(max), TWO32 - Threshold(max), max, r.value)
              && forall i :: 0 <= i < used - 1 ==> Word(tape[i]) < Threshold(max)
  {
    hide Word;
    var threshold := Threshold(max);
    used := 0;
    while used < |tape|
      invariant used <= |tape|
      invariant forall i :: 0 <= i < used ==> Word(tape[i]) < threshold
    {
      var w := Word(tape[used]);
      used := used + 1;
      if w >= threshold {
        return Some(w % max), used;
      }
    }
    r := None;
  }

  /** The number of values of a range, computed in 64 bits without overflowing the difference. */
  function Width(low: int, high: int): nat
    requires INT_MIN <= low <= high <= INT_MAX
  {
    if low >= 0 || high < 0 then (high - low + 1) % TWO64
    else (-(low + 1) + high + 2) % TWO64
  }

  /** The width is right for every range but that of all integers, whose width wraps to zero. */
  lemma {:induction false} WidthIff(low: int, high: int)
    requires INT_MIN <= low <= high <= INT_MAX
    ensures Width(low, high) == high - low + 1 <==> !(low == INT_MIN && high == INT_MAX)
    ensures low == INT_MIN && high == INT_MAX ==> Width(low, high) == 0
  {
    var n := high - low + 1;
    assert Width(low, high) == n % TWO64;
    if n < TWO64 {
      assert n % TWO64 == n;
    } else {
      assert n == TWO64;
    }
  }

  /** The check that the width fits 32 bits passes exactly for the ranges that fit, and for the one that
      wraps. */
  lemma {:induction false} WidthCheckIff(low: int, high: int)
    requires INT_MIN <= low <= high <= INT_MAX
    ensures Width(low, high) < TWO32 <==> high - low + 1 < TWO32 || (low == INT_MIN && high == INT_MAX)
  {
    WidthIff(low, high);
  }

  /** `rand`: its value lies in the range, and is the accepted word's residue above `low`. */
  method Rand(low: int, high: int, tape: seq<Draw>) returns (r: Option<int>, used: nat)
    requires INT_MIN <= low <= high <= INT_MAX
    requires 0 < Width(low, high) < TWO32
    ensures used <= |tape|
    ensures r.Some? ==>
              && low <= r.value <= high && used > 0
              && Word(tape[used - 1]) in
                 Hits(Threshold(Width(low, high)), TWO32 - Threshold(Width(low, high)), high - low + 1, r.value - low)
    ensures r.None? ==> forall i :: 0 <= i < |tape| ==> Word(tape[i]) < Threshold(Width(low, high))
  {
    hide Word, Hits, Width, Threshold;
    WidthIff(low, high);
    var below;
    below, used := RandBelow(Width(low, high), tape);
    r := if below.None? then None else Some(low + below.value);
  }

  function Swapped<T>(s: seq<T>, i: nat, j: nat): (r: seq<T>)
    requires i < |s| && j < |s|
    ensures |r| == |s|
  {
    s[i := s[j]][j := s[i]]
  }

  lemma {:induction false} SwappedDistinct(s: seq<nat>, i: nat, j: nat)
    requires i < |s| && j < |s| && Distinct(s)
    ensures Distinct(Swapped(s, i, j))
  {
  }

  /** The draws a pick of `n` from `size` may get. */
  predicate InRange(size: nat, from: nat, draws: seq<nat>) {
    from + |draws| <= size && forall k :: 0 <= k < |draws| ==> draws[k] < size - from - k
  }

  /** The positions picked from place `i` of the index table on. */
  function Picks(table: seq<nat>, i: nat, draws: seq<nat>): (r: seq<nat>)
    requires InRange(|table|, i, draws)
    ensures |r| == |draws|
    decreases |draws|
  {
    if draws == [] then []
    else
      var next := Swapped(table, i, i + draws[0]);
      assert InRange(|next|, i + 1, draws[1..]);
      [next[i]] + Picks(next, i + 1, draws[1..])
  }

  lemma {:induction false} PicksStep(table: seq<nat>, i: nat, draws: seq<nat>)
    requires InRange(|table|, i, draws) && draws != []
    ensures var next := Swapped(table, i, i + draws[0]);
            && InRange(|table|, i + 1, draws[1..])
            && next[i] == table[i + draws[0]]
            && Picks(table, i, draws) == [table[i + draws[0]]] + Picks(next, i + 1, draws[1..])
            && Picks(table, i, draws)[0] == table[i + draws[0]]
            && Picks(table, i, draws)[1..] == Picks(next, i + 1, draws[1..])
  {
  }

  /** What is picked lies in the rest of the table. */
  lemma {:induction false} PicksFromRest(table: seq<nat>, i: nat, draws: seq<nat>)
    requires InRange(|table|, i, draws)
    ensures forall k :: 0 <= k < |draws| ==> Picks(table, i, draws)[k] in table[i..]
    decreases |draws|
  {
    if draws != [] {
      var next := Swapped(table, i, i + draws[0]);
      PicksFromRest(next, i + 1, draws[1..]);
      forall x | x in next[i + 1..]
        ensures x in table[i..]
      {
        SwapKeepsRest(table, i, i + draws[0], x);
      }
      assert next[i] == table[i..][draws[0]];
    }
  }

  lemma {:induction false} SwapKeepsRest(table: seq<nat>, i: nat, j: nat, x: nat)
    requires i <= j < |table|
    ensures x in Swapped(table, i, j)[i + 1..] ==> x in table[i..]
    ensures Distinct(table) && x in table[i..] && x != table[j] ==> x in Swapped(table, i, j)[i + 1..]
    ensures Distinct(table) ==> table[j] !in Swapped(table, i, j)[i + 1..]
  {
    var next := Swapped(table, i, j);
    if x in next[i + 1..] {
      var k :| 0 <= k < |table| - i - 1 && next[i + 1..][k] == x;
      assert table[i..][if i + 1 + k == j then 0 else k + 1] == x;
    }
    if Distinct(table) && x in table[i..] && x != table[j] {
      var k :| 0 <= k < |table| - i && table[i..][k] == x;
      if k == 0 {
        assert next[i + 1..][j - i - 1] == x;
      } else {
        assert next[i + 1..][k - 1] == x;
      }
    }
  }

  /** No position is picked twice. */
  lemma {:induction false} PicksDistinct(table: seq<nat>, i: nat, draws: seq<nat>)
    requires InRange(|table|, i, draws) && Distinct(table)
    ensures Distinct(Picks(table, i, draws))
    decreases |draws|
  {
    if draws != [] {
      var next := Swapped(table, i, i + draws[0]);
      SwappedDistinct(table, i, i + draws[0]);
      PicksDistinct(next, i + 1, draws[1..]);
      PicksFromRest(next, i + 1, draws[1..]);
      SwapKeepsRest(table, i, i + draws[0], next[i]);
      var rest := Picks(next, i + 1, draws[1..]);
      assert forall k :: 0 <= k < |rest| ==> rest[k] in next[i + 1..];
    }
  }

  /** Different draws pick differently. */
  lemma {:induction false} PicksInjective(table: seq<nat>, i: nat, d: seq<nat>, e: seq<nat>)
    requires InRange(|table|, i, d) && InRange(|table|, i, e) && Distinct(table)
    requires Picks(table, i, d) == Picks(table, i, e)
    ensures d == e
    decreases |d|
  {
    hide Picks, Swapped, Distinct;
    assert |d| == |Picks(table, i, d)| == |Picks(table, i, e)| == |e|;
    if d != [] {
      PicksStep(table, i, d);
      PicksStep(table, i, e);
      DistinctAt(table, i + d[0], i + e[0]);
      SwappedDistinct(table, i, i + d[0]);
      PicksInjective(Swapped(table, i, i + d[0]), i + 1, d[1..], e[1..]);
      assert d == [d[0]] + d[1..] && e == [e[0]] + e[1..];
    }
  }

  lemma {:induction false} DistinctAt(s: seq<nat>, i: nat, j: nat)
    requires Distinct(s) && i < |s| && j < |s| && s[i] == s[j]
    ensures i == j
  {
  }

  /** Every ordered selection of distinct positions is picked by some draws. */
  lemma {:induction false} PicksSurjective(table: seq<nat>, i: nat, target: seq<nat>) returns (draws: seq<nat>)
    requires Distinct(table) && Distinct(target) && i <= |table|
    requires forall k :: 0 <= k < |target| ==> target[k] in table[i..]
    ensures InRange(|table|, i, draws) && Picks(table, i, draws) == target
    decreases |target|
  {
    hide Picks, Swapped;
    draws := [];
    if target == [] {
      NoPicks(table, i);
    } else {
      var d :| 0 <= d < |table| - i && table[i..][d] == target[0];
      var next := Swapped(table, i, i + d);
      SwappedDistinct(table, i, i + d);
      forall k | 0 <= k < |target| - 1
        ensures target[1..][k] in next[i + 1..]
      {
        SwapKeepsRest(table, i, i + d, target[k + 1]);
      }
      var rest := PicksSurjective(next, i + 1, target[1..]);
      draws := [d] + rest;
      assert draws[1..] == rest;
      PicksStep(table, i, draws);
      assert target == [target[0]] + target[1..];
    }
  }

  lemma {:induction false} NoPicks(table: seq<nat>, i: nat)
    requires i <= |table|
    ensures Picks(table, i, []) == []
  {
  }

  function Identity(n: nat): (r: seq<nat>)
    ensures Distinct(r)
  {
    seq(n, i => i)
  }

  /** `pick`: distinct places of `x`, in the order the draws choose them; nothing from an empty list. */
  method Pick<T>(x: seq<T>, n: nat, draws: seq<nat>) returns (r: Option<seq<T>>)
    requires InRange(|x|, 0, draws) && |draws| == if n < |x| then n else |x|
    ensures x == [] <==> r.None?
    ensures x != [] ==>
              var picked := Picks(Identity(|x|), 0, draws);
              && Distinct(picked) && |r.value| == |draws|
              && forall k :: 0 <= k < |draws| ==> picked[k] < |x| && r.value[k] == x[picked[k]]
  {
    if |x| == 0 {
      return None;
    }
    if n == 0 {
      return Some([]);
    }
    hide Picks, Swapped, InRange, Distinct, Below, Chosen;
    var indices := new nat[|x|](i => i);
    ghost var all := Picks(Identity(|x|), 0, draws);
    PicksDistinct(Identity(|x|), 0, draws);
    assert indices[..] == Identity(|x|);
    IdentityBelow(|x|);
    NoneChosen(x, all);
    var output: seq<T> := [];
    assert draws[0..] == draws && all[0..] == all;
    for i := 0 to |draws|
      invariant InRange(|x|, i, draws[i..])
      invariant Below(indices[..], |x|)
      invariant all[i..] == Picks(indices[..], i, draws[i..])
      invariant Chosen(x, all, output, i)
    {
      ghost var table := indices[..];
      assert draws[i..][0] == draws[i] && draws[i..][1..] == draws[i + 1..];
      FirstInRange(|x|, i, draws[i..]);
      PicksStep(table, i, draws[i..]);
      SwappedBelow(table, |x|, i, i + draws[i]);
      SwapAt(indices, i, i + draws[i]);
      assert all[i..][0] == all[i] && all[i..][1..] == all[i + 1..];
      assert indices[i] == indices[..][i];
      MoreChosen(x, all, output, i);
      output := output + [x[indices[i]]];
    }
    ChosenAll(x, all, output);
    r := Some(output);
  }

  /** Swaps two places of an array. */
  method SwapAt<T>(a: array<T>, i: nat, j: nat)
    requires i < a.Length && j < a.Length
    modifies a
    ensures a[..] == Swapped(old(a[..]), i, j)
  {
    a[i], a[j] := a[j], a[i];
  }

  predicate Below(s: seq<nat>, n: nat) {
    forall k :: 0 <= k < |s| ==> s[k] < n
  }

  /** The first `i` places picked are in the output. */
  ghost predicate Chosen<T>(x: seq<T>, all: seq<nat>, output: seq<T>, i: nat) {
    |output| == i <= |all| && forall k :: 0 <= k < i ==> all[k] < |x| && output[k] == x[all[k]]
  }

  lemma {:induction false} NoneChosen<T>(x: seq<T>, all: seq<nat>)
    ensures Chosen(x, all, [], 0)
  {
  }

  lemma {:induction false} MoreChosen<T>(x: seq<T>, all: seq<nat>, output: seq<T>, i: nat)
    requires Chosen(x, all, output, i) && i < |all| && all[i] < |x|
    ensures Chosen(x, all, output + [x[all[i]]], i + 1)
  {
  }

  lemma {:induction false} ChosenAll<T>(x: seq<T>, all: seq<nat>, output: seq<T>)
    requires Chosen(x, all, output, |all|)
    ensures |output| == |all| && forall k :: 0 <= k < |all| ==> all[k] < |x| && output[k] == x[all[k]]
  {
  }

  lemma {:induction false} IdentityBelow(n: nat)
    ensures Below(Identity(n), n)
  {
  }

  lemma {:induction false} SwappedBelow(s: seq<nat>, n: nat, i: nat, j: nat)
    requires Below(s, n) && i < |s| && j < |s|
    ensures Below(Swapped(s, i, j), n) && s[j] < n
  {
  }

  lemma {:induction false} FirstInRange(size: nat, from: nat, draws: seq<nat>)
    requires InRange(size, from, draws) && draws != []
    ensures from + draws[0] < size
  {
  }
}
