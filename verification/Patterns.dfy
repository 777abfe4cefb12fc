/** The address patterns of `libp2p/multiaddress.nim` and their greedy matcher. */
module Patterns {

  datatype Pattern = Eq(value: nat) | Or(args: seq<Pattern>) | And(args: seq<Pattern>)

  datatype MatchResult = MatchResult(flag: bool, rem: seq<nat>)

  const NO_MATCH := MatchResult(false, [])

  /** `matchPart`. */
  function MatchPart(pat: Pattern, pcs: seq<nat>): (r: MatchResult)
    ensures r.flag ==> |r.rem| <= |pcs|
    decreases pat, 1, 0
  {
    match pat
    case Eq(v) => if pcs != [] && pcs[0] == v then MatchResult(true, pcs[1..]) else NO_MATCH
    case Or(args) => BestOf(pat, pcs, |args|)
    case And(args) => if |pcs| < |args| then NO_MATCH else InOrder(pat, pcs, 0)
  }

  /** The match of the first `n` alternatives that leaves least; the earlier one on a tie. */
  function BestOf(pat: Pattern, pcs: seq<nat>, n: nat): (r: MatchResult)
    requires pat.Or? && n <= |pat.args|
    ensures r.flag ==> |r.rem| <= |pcs|
    decreases pat, 0, n
  {
    if n == 0 then NO_MATCH
    else
      var best := BestOf(pat, pcs, n - 1);
      var res := MatchPart(pat.args[n - 1], pcs);
      if res.flag && (!best.flag || |best.rem| > |res.rem|) then res else best
  }

  /** The parts from `i` on, each matched where the previous one stopped. */
  function InOrder(pat: Pattern, pcs: seq<nat>, i: nat): (r: MatchResult)
    requires pat.And? && i <= |pat.args|
    ensures r.flag ==> |r.rem| <= |pcs|
    decreases pat, 0, |pat.args| - i
  {
    if i == |pat.args| then MatchResult(true, pcs)
    else
      var res := MatchPart(pat.args[i], pcs);
      if !res.flag then MatchResult(false, res.rem) else InOrder(pat, res.rem, i + 1)
  }

  /** The loops of `matchPart`. */
  method RunMatchPart(pat: Pattern, protos: seq<nat>) returns (r: MatchResult)
    ensures r == MatchPart(pat, protos)
    decreases pat
  {
    var pcs := protos;
    match pat
    case Or(args) =>
      r := NO_MATCH;
      for i := 0 to |args|
        invariant r == BestOf(pat, pcs, i)
      {
        var res := RunMatchPart(args[i], pcs);
        if res.flag {
          if !r.flag || |r.rem| > |res.rem| {
            r := res;
          }
        }
      }
    case And(args) =>
      if |pcs| < |args| {
        return NO_MATCH;
      }
      for i := 0 to |args|
        invariant InOrder(pat, pcs, i) == InOrder(pat, protos, 0)
      {
        var res := RunMatchPart(args[i], pcs);
        if !res.flag {
          return MatchResult(false, res.rem);
        }
        pcs := res.rem;
      }
      r := MatchResult(true, pcs);
    case Eq(v) =>
      if |pcs| == 0 {
        return NO_MATCH;
      }
      r := if pcs[0] == v then MatchResult(true, pcs[1..]) else NO_MATCH;
  }

  /** The words a pattern stands for. */
  ghost predicate InLang(pat: Pattern, w: seq<nat>)
    decreases pat, 1, 0
  {
    match pat
    case Eq(v) => w == [v]
    case Or(args) => exists i :: 0 <= i < |args| && InLang(args[i], w)
    case And(args) => InSeq(pat, w, 0)
  }

  /** The words of the parts from `i` on, one after the other. */
  ghost predicate InSeq(pat: Pattern, w: seq<nat>, i: nat)
    requires pat.And? && i <= |pat.args|
    decreases pat, 0, |pat.args| - i
  {
    if i == |pat.args| then w == []
    else exists k :: 0 <= k <= |w| && InLang(pat.args[i], w[..k]) && InSeq(pat, w[k..], i + 1)
  }

  /** What a match consumed. */
  function Consumed(pcs: seq<nat>, r: MatchResult): nat
    requires |r.rem| <= |pcs|
  {
    |pcs| - |r.rem|
  }

  /** A success is sound for every pattern and list: the consumed prefix is a word of the pattern and
      `rem` is what follows it. */
  lemma {:induction false} MatchSound(pat: Pattern, pcs: seq<nat>)
    requires MatchPart(pat, pcs).flag
    ensures var r := MatchPart(pat, pcs);
      var k := Consumed(pcs, r);
      r.rem == pcs[k..] && InLang(pat, pcs[..k])
    decreases pat, 1, 0
  {
    match pat
    case Eq(v) => assert pcs[..1] == [v];
    case Or(args) => BestSound(pat, pcs, |args|);
    case And(args) => OrderSound(pat, pcs, 0);
  }

  lemma {:induction false} BestSound(pat: Pattern, pcs: seq<nat>, n: nat)
    requires pat.Or? && n <= |pat.args| && BestOf(pat, pcs, n).flag
    ensures var r := BestOf(pat, pcs, n);
      var k := Consumed(pcs, r);
      r.rem == pcs[k..] && exists i :: 0 <= i < n && InLang(pat.args[i], pcs[..k])
    decreases pat, 0, n
  {
    var best := BestOf(pat, pcs, n - 1);
    if best.flag { BestSound(pat, pcs, n - 1); }
    if MatchPart(pat.args[n - 1], pcs).flag { MatchSound(pat.args[n - 1], pcs); }
  }

  lemma {:induction false} OrderSound(pat: Pattern, pcs: seq<nat>, i: nat)
    requires pat.And? && i <= |pat.args| && InOrder(pat, pcs, i).flag
    ensures var r := InOrder(pat, pcs, i);
      var k := Consumed(pcs, r);
      r.rem == pcs[k..] && InSeq(pat, pcs[..k], i)
    decreases pat, 0, |pat.args| - i
  {
    if i < |pat.args| {
      var res := MatchPart(pat.args[i], pcs);
      MatchSound(pat.args[i], pcs);
      OrderSound(pat, res.rem, i + 1);
      var j := Consumed(pcs, res);
      var k := Consumed(pcs, InOrder(pat, pcs, i));
      assert pcs[..k][..j] == pcs[..j] && pcs[..k][j..] == res.rem[..k - j];
      assert pcs[j..][k - j..] == pcs[k..];
    }
  }

  /** No word of the pattern is empty. */
  ghost predicate EpsilonFree(pat: Pattern) {
    !InLang(pat, [])
  }

  /** No word of `p` goes on, past another one of its words, the way a word of `q` begins. */
  ghost predicate NoOverrun(p: Pattern, q: Pattern) {
    forall u, v, z :: InLang(p, u) && InLang(p, v) && u < v && InLang(q, z) && z != [] ==> z[0] != v[|u|]
  }

  /** Patterns on which taking the longest alternative never spoils what follows. */
  ghost predicate GreedySafe(pat: Pattern) {
    match pat
    case Eq(_) => true
    case Or(args) => forall i :: 0 <= i < |args| ==> GreedySafe(args[i])
    case And(args) =>
      && (forall i :: 0 <= i < |args| ==> GreedySafe(args[i]) && EpsilonFree(args[i]))
      && (forall i :: 0 < i < |args| ==> NoOverrun(args[i - 1], args[i]))
  }

  /** On those, the matcher takes the longest prefix in the language: every word that is a prefix is
      matched, and at least as much is consumed. */
  lemma {:induction false} MatchLongest(pat: Pattern, pcs: seq<nat>, k: nat)
    requires GreedySafe(pat) && k <= |pcs| && InLang(pat, pcs[..k])
    ensures MatchPart(pat, pcs).flag && Consumed(pcs, MatchPart(pat, pcs)) >= k
    decreases pat, 1, 0
  {
    match pat
    case Eq(v) =>
      assert |pcs[..k]| == 1 && pcs[..k][0] == pcs[0];
    case Or(args) =>
      var i :| 0 <= i < |args| && InLang(args[i], pcs[..k]);
      MatchLongest(args[i], pcs, k);
      BestAtLeast(pat, pcs, |args|, i);
    case And(args) =>
      SeqLength(pat, pcs[..k], 0);
      OrderLongest(pat, pcs, k, 0);
  }

  lemma {:induction false} BestAtLeast(pat: Pattern, pcs: seq<nat>, n: nat, i: nat)
    requires pat.Or? && i < n <= |pat.args| && MatchPart(pat.args[i], pcs).flag
    ensures BestOf(pat, pcs, n).flag && |BestOf(pat, pcs, n).rem| <= |MatchPart(pat.args[i], pcs).rem|
    decreases n
  {
    if i < n - 1 {
      BestAtLeast(pat, pcs, n - 1, i);
    }
  }

  lemma {:induction false} SeqLength(pat: Pattern, w: seq<nat>, i: nat)
    requires pat.And? && GreedySafe(pat) && i <= |pat.args| && InSeq(pat, w, i)
    ensures |w| >= |pat.args| - i
    decreases |pat.args| - i
  {
    if i < |pat.args| {
      var k :| 0 <= k <= |w| && InLang(pat.args[i], w[..k]) && InSeq(pat, w[k..], i + 1);
      assert w[..k] != [];
      SeqLength(pat, w[k..], i + 1);
    }
  }

  /** A longer word of part `i` cannot reach into what the next part has to match. */
  lemma {:induction false} NoGap(pat: Pattern, pcs: seq<nat>, i: nat, j: nat, k: nat, m: nat)
    requires pat.And? && GreedySafe(pat) && i + 1 < |pat.args| && j <= k <= |pcs| && j <= m <= |pcs|
    requires InLang(pat.args[i], pcs[..j]) && InLang(pat.args[i], pcs[..m])
    requires InSeq(pat, pcs[j..k], i + 1)
    ensures m == j && InSeq(pat, pcs[m..][..k - j], i + 1)
  {
    hide GreedySafe, InSeq, InLang;
    FirstOfSeq(pat, pcs[j..k], i + 1);
    SafeParts(pat, i);
    var z :| InLang(pat.args[i + 1], z) && z != [] && z <= pcs[j..k];
    NoLongerWord(pat.args[i], pat.args[i + 1], pcs, j, m, z);
    assert pcs[j..][..k - j] == pcs[j..k];
  }

  lemma {:induction false} NoLongerWord(p: Pattern, q: Pattern, pcs: seq<nat>, j: nat, m: nat, z: seq<nat>)
    requires NoOverrun(p, q) && j <= m <= |pcs|
    requires InLang(p, pcs[..j]) && InLang(p, pcs[..m])
    requires InLang(q, z) && z != [] && j < |pcs| && z[0] == pcs[j]
    ensures m == j
  {
    hide InLang;
    if m > j {
      ProperPrefix(pcs, j, m);
    }
  }

  lemma {:induction false} ProperPrefix(pcs: seq<nat>, j: nat, m: nat)
    requires j < m <= |pcs|
    ensures pcs[..j] < pcs[..m] && pcs[..m][j] == pcs[j]
  {
  }

  lemma {:induction false} OrderLongest(pat: Pattern, pcs: seq<nat>, k: nat, i: nat)
    requires pat.And? && GreedySafe(pat) && i <= |pat.args| && k <= |pcs| && InSeq(pat, pcs[..k], i)
    ensures InOrder(pat, pcs, i).flag && Consumed(pcs, InOrder(pat, pcs, i)) >= k
    decreases pat, 0, |pat.args| - i
  {
    hide GreedySafe;
    if i < |pat.args| {
      var j := SplitPoint(pat, pcs, k, i);
      var p := pat.args[i];
      SafeParts(pat, i);
      OrderStep(pat, pcs, i);
      hide InLang, InSeq, MatchPart, InOrder, NoOverrun, EpsilonFree;
      MatchLongest(p, pcs, j);
      MatchSound(p, pcs);
      var m := Consumed(pcs, MatchPart(p, pcs));
      if i + 1 < |pat.args| {
        NoGap(pat, pcs, i, j, k, m);
        OrderLongest(pat, pcs[m..], k - j, i + 1);
      }
    }
  }

  lemma {:induction false} SafeParts(pat: Pattern, i: nat)
    requires pat.And? && GreedySafe(pat) && i < |pat.args|
    ensures GreedySafe(pat.args[i]) && EpsilonFree(pat.args[i])
    ensures i + 1 < |pat.args| ==> NoOverrun(pat.args[i], pat.args[i + 1])
  {
    hide NoOverrun, InLang;
    if i + 1 < |pat.args| {
      assert NoOverrun(pat.args[i + 1 - 1], pat.args[i + 1]);
    }
  }

  lemma {:induction false} OrderStep(pat: Pattern, pcs: seq<nat>, i: nat)
    requires pat.And? && i < |pat.args|
    ensures var res := MatchPart(pat.args[i], pcs);
      res.flag ==>
        && InOrder(pat, pcs, i) == InOrder(pat, res.rem, i + 1)
        && (i + 1 == |pat.args| ==> InOrder(pat, pcs, i) == MatchResult(true, res.rem))
  {
  }

  lemma {:induction false} SplitPoint(pat: Pattern, pcs: seq<nat>, k: nat, i: nat) returns (j: nat)
    requires pat.And? && i < |pat.args| && k <= |pcs| && InSeq(pat, pcs[..k], i)
    ensures j <= k && InLang(pat.args[i], pcs[..j]) && InSeq(pat, pcs[j..k], i + 1)
    ensures i + 1 == |pat.args| ==> j == k
  {
    var w := pcs[..k];
    j :| 0 <= j <= |w| && InLang(pat.args[i], w[..j]) && InSeq(pat, w[j..], i + 1);
    assert w[..j] == pcs[..j] && w[j..] == pcs[j..k];
  }

  lemma {:induction false} FirstOfSeq(pat: Pattern, w: seq<nat>, i: nat)
    requires pat.And? && GreedySafe(pat) && i < |pat.args| && InSeq(pat, w, i)
    ensures exists z :: InLang(pat.args[i], z) && z != [] && z <= w
  {
    var k :| 0 <= k <= |w| && InLang(pat.args[i], w[..k]) && InSeq(pat, w[k..], i + 1);
    assert w[..k] <= w;
  }

  /** `match` on the protocols of an address. */
  predicate Matches(pat: Pattern, protos: seq<nat>) {
    var r := MatchPart(pat, protos);
    r.flag && r.rem == []
  }

  /** `matchPartial`. */
  predicate MatchesPartial(pat: Pattern, protos: seq<nat>) {
    MatchPart(pat, protos).flag
  }

  /** On greedy-safe patterns `match` decides the language and `matchPartial` its prefixes. */
  lemma {:induction false} MatchDecides(pat: Pattern, protos: seq<nat>)
    requires GreedySafe(pat)
    ensures Matches(pat, protos) <==> InLang(pat, protos)
    ensures MatchesPartial(pat, protos) <==> exists k :: 0 <= k <= |protos| && InLang(pat, protos[..k])
  {
    if MatchPart(pat, protos).flag {
      MatchSound(pat, protos);
      assert protos[..|protos|] == protos;
    }
    if InLang(pat, protos) {
      assert protos[..|protos|] == protos;
      MatchLongest(pat, protos, |protos|);
    }
    if k :| 0 <= k <= |protos| && InLang(pat, protos[..k]) {
      MatchLongest(pat, protos, k);
    }
  }

  /** Greed does spoil a match elsewhere: `(a | ab) b` holds `ab`, and the matcher misses it. */
  lemma {:induction false} GreedyMisses(a: nat, b: nat)
    requires a != b
    ensures var pat := And([Or([Eq(a), And([Eq(a), Eq(b)])]), Eq(b)]);
      InLang(pat, [a, b]) && !MatchesPartial(pat, [a, b])
  {
    var inner := And([Eq(a), Eq(b)]);
    var alt := Or([Eq(a), inner]);
    var pat := And([alt, Eq(b)]);
    var w := [a, b];
    assert w[..1] == [a] && w[1..] == [b] && [b][1..] == [] && [b][..1] == [b];
    assert InSeq(pat, [], 2);
    assert InSeq(pat, [b], 1);
    assert InLang(alt.args[0], [a]);
    assert InLang(alt, [a]);
    assert MatchPart(Eq(a), w) == MatchResult(true, [b]);
    assert MatchPart(Eq(b), [b]) == MatchResult(true, []);
    assert InOrder(inner, [], 2) == MatchResult(true, []);
    assert InOrder(inner, [b], 1) == MatchResult(true, []);
    assert MatchPart(inner, w) == MatchResult(true, []);
    assert BestOf(alt, w, 0) == NO_MATCH;
    assert BestOf(alt, w, 1) == MatchResult(true, [b]);
    assert MatchPart(alt, w) == MatchResult(true, []);
    assert MatchPart(Eq(b), []) == NO_MATCH;
    assert !InOrder(pat, [], 1).flag;
    assert InOrder(pat, w, 0) == InOrder(pat, [], 1);
  }

  /** So does the length cut-off, behind a part that matches nothing. */
  lemma {:induction false} CutOffMisses(a: nat)
    ensures var pat := And([And([]), Eq(a)]);
      InLang(pat, [a]) && !MatchesPartial(pat, [a])
  {
    var none := And([]);
    var pat := And([none, Eq(a)]);
    var w := [a];
    assert w[..0] == [] && w[0..] == w && w[..1] == w && w[1..] == [];
    assert InSeq(none, [], 0) && InLang(none, []);
    assert InSeq(pat, [], 2);
    assert InSeq(pat, w, 1);
  }
}
