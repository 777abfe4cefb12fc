/** Watermark trimming of `libp2p/connmanager.nim`: scores, protection, and which peers a trim drops. */
module ConnTrim {
  import opened Basics
  import opened MuxerStores

  datatype Watermark = Watermark(lowWater: nat, highWater: nat, gracePeriod: int, silencePeriod: int)

  /** The sum of a table's values; it does not depend on the order they are read in. */
  ghost function Sum(m: map<string, int>): int {
    if m == map[] then 0
    else
      var k :| k in m;
      m[k] + Sum(m - {k})
  }

  lemma {:induction false} SumWithout(m: map<string, int>, k: string)
    requires k in m
    ensures Sum(m) == m[k] + Sum(m - {k})
    decreases |m|
  {
    var c :| c in m && Sum(m) == m[c] + Sum(m - {c});
    if c != k {
      SumWithout(m - {c}, k);
      SumWithout(m - {k}, c);
      assert m - {c} - {k} == m - {k} - {c};
    }
  }

  method Total(m: map<string, int>) returns (sum: int)
    ensures sum == Sum(m)
  {
    sum := 0;
    var left := m;
    while left != map[]
      invariant sum + Sum(left) == Sum(m)
      decreases |left|
    {
      var k :| k in left;
      SumWithout(left, k);
      sum := sum + left[k];
      left := left - {k};
    }
  }

  /** A peer a trim may drop, with what it is ordered by. */
  datatype Entry = Entry(score: int, time: int, peer: PeerId)

  predicate AtMost(a: Entry, b: Entry) {
    a.score < b.score || (a.score == b.score && a.time <= b.time)
  }

  predicate Sorted(s: seq<Entry>) {
    forall i, j :: 0 <= i < j < |s| ==> AtMost(s[i], s[j])
  }

  /** Behind everything that is not greater. */
  function Placed(s: seq<Entry>, e: Entry): (r: seq<Entry>)
    requires Sorted(s)
    ensures multiset(r) == multiset(s) + multiset{e}
    ensures Sorted(r)
  {
    if s == [] then [e]
    else
      var n := |s| - 1;
      assert s == s[..n] + [s[n]];
      if AtMost(s[n], e) then s + [e]
      else
        var front := Placed(s[..n], e);
        PlacedBelow(s[..n], e, front, s[n]);
        front + [s[n]]
  }

  lemma {:induction false} PlacedBelow(s: seq<Entry>, e: Entry, front: seq<Entry>, last: Entry)
    requires Sorted(s + [last]) && !AtMost(last, e)
    requires multiset(front) == multiset(s) + multiset{e}
    ensures forall i :: 0 <= i < |front| ==> AtMost(front[i], last)
  {
    forall i | 0 <= i < |front|
      ensures AtMost(front[i], last)
    {
      assert front[i] in multiset(front);
      assert front[i] in multiset(s) + multiset{e};
      if front[i] != e {
        assert front[i] in multiset(s);
        var k :| 0 <= k < |s| && s[k] == front[i];
        assert AtMost((s + [last])[k], (s + [last])[|s|]);
      }
    }
  }

  method Sort(s: seq<Entry>) returns (r: seq<Entry>)
    ensures Sorted(r) && multiset(r) == multiset(s)
  {
    r := [];
    for i := 0 to |s|
      invariant Sorted(r) && multiset(r) == multiset(s[..i])
    {
      assert s[..i + 1] == s[..i] + [s[i]];
      r := Placed(r, s[i]);
    }
    assert s[..|s|] == s;
  }

  /** The peers of the entries. */
  function Peers(s: seq<Entry>): set<PeerId> {
    set i | 0 <= i < |s| :: s[i].peer
  }

  lemma {:induction false} PeersMore(s: seq<Entry>, e: Entry)
    ensures Peers(s + [e]) == Peers(s) + {e.peer}
  {
    var r := s + [e];
    forall p
      ensures p in Peers(r) <==> p in Peers(s) || p == e.peer
    {
      if p in Peers(s) {
        var i :| 0 <= i < |s| && s[i].peer == p;
        assert r[i].peer == p;
      }
      if p == e.peer {
        assert r[|s|].peer == p;
      }
      if p in Peers(r) {
        var i :| 0 <= i < |r| && r[i].peer == p;
        assert i < |s| ==> s[i].peer == p;
      }
    }
  }

  lemma {:induction false} PeersAtMost(s: seq<Entry>)
    ensures |Peers(s)| <= |s|
  {
    if s == [] {
      assert Peers(s) == {};
    } else {
      var front := s[..|s| - 1];
      assert s == front + [s[|s| - 1]];
      PeersMore(front, s[|s| - 1]);
      PeersAtMost(front);
    }
  }

  /** Entries of different peers: every prefix has as many peers as entries. */
  lemma {:induction false} PeersOfPrefix(s: seq<Entry>, i: nat)
    requires |Peers(s)| == |s| && i <= |s|
    ensures |Peers(s[..i])| == i
  {
    if i < |s| {
      var front := s[..|s| - 1];
      assert s == front + [s[|s| - 1]];
      PeersMore(front, s[|s| - 1]);
      PeersAtMost(front);
      PeersOfPrefix(front, i);
      assert front[..i] == s[..i];
    } else {
      assert s[..i] == s;
    }
  }

  lemma {:induction false} PeersOfSame(s: seq<Entry>, r: seq<Entry>)
    requires multiset(s) == multiset(r)
    ensures Peers(s) == Peers(r) && |s| == |r|
    ensures forall e :: e in s <==> e in r
  {
    assert |multiset(s)| == |multiset(r)|;
    forall e
      ensures e in s <==> e in r
    {
      assert e in s <==> e in multiset(s);
      assert e in r <==> e in multiset(r);
    }
    forall p
      ensures p in Peers(s) <==> p in Peers(r)
    {
      if p in Peers(s) {
        var i :| 0 <= i < |s| && s[i].peer == p;
        assert s[i] in r;
      }
      if p in Peers(r) {
        var i :| 0 <= i < |r| && r[i].peer == p;
        assert r[i] in s;
      }
    }
  }

  /** What a prefix of the order holds is not greater than what it leaves. */
  lemma {:induction false} PrefixIsLowest(entries: map<PeerId, Entry>, s: seq<Entry>, i: nat, p: PeerId, q: PeerId)
    requires Sorted(s) && i <= |s|
    requires forall e :: e in s ==> e.peer in entries && e == entries[e.peer]
    requires p in Peers(s[..i]) && q in Peers(s) && q !in Peers(s[..i])
    ensures p in entries && q in entries && AtMost(entries[p], entries[q])
  {
    var j :| 0 <= j < i && s[..i][j].peer == p;
    var k :| 0 <= k < |s| && s[k].peer == q;
    PrefixHolds(s, i);
    assert s[j] in s && s[k] in s;
    assert AtMost(s[j], s[k]);
  }

  /** What is left after dropping the first `n` of the sorted list, when that stopped at the mark or at the
      end of the list. */
  lemma {:induction false} TrimOutcome(
    keys: set<PeerId>, exempt: set<PeerId>, entries: map<PeerId, Entry>, s: seq<Entry>, n: nat, lowWater: nat)
    requires exempt <= keys && Peers(s) == keys - exempt && |Peers(s)| == |s| && n <= |s|
    requires Sorted(s) && entries.Keys == keys
    requires forall e :: e in s ==> e.peer in Peers(s) && e == entries[e.peer]
    requires n < |s| ==> |keys| - n <= lowWater
    requires n > 0 ==> |keys| - n >= lowWater
    ensures Peers(s[..n]) <= keys && Peers(s[..n]) !! exempt
    ensures |keys| - n == TrimmedTo(|keys|, lowWater, |exempt|)
    ensures forall p, q :: p in Peers(s[..n]) && q in keys && q !in Peers(s[..n]) && q !in exempt ==>
              AtMost(entries[p], entries[q])
  {
    hide Peers, Sorted, AtMost;
    assert keys == exempt + Peers(s);
    assert |keys| == |exempt| + |s|;
    PeersOfPart(s, n);
    forall p, q | p in Peers(s[..n]) && q in keys && q !in Peers(s[..n]) && q !in exempt
      ensures AtMost(entries[p], entries[q])
    {
      PrefixIsLowest(entries, s, n, p, q);
    }
  }

  class ConnManager {
    const store: MuxerStore
    var protectedPeers: map<PeerId, set<string>>
    var connectedAt: map<PeerId, int>
    var staticTags: map<PeerId, map<string, int>>
    var decayingTags: map<PeerId, map<string, int>>
    const outboundBonus: int

    /** No peer is listed as protected without a tag. */
    ghost predicate Valid()
      reads this, store
    {
      store.Valid() && forall p :: p in protectedPeers ==> protectedPeers[p] != {}
    }

    constructor (bonus: int)
      ensures Valid() && fresh(store) && store.muxed == map[] && protectedPeers == map[]
    {
      store := new MuxerStore();
      protectedPeers, connectedAt, staticTags, decayingTags := map[], map[], map[], map[];
      outboundBonus := bonus;
    }

    function Tags(p: PeerId): set<string>
      reads this
    {
      if p in protectedPeers then protectedPeers[p] else {}
    }

    method Protect(p: PeerId, tag: string)
      requires Valid()
      modifies this`protectedPeers
      ensures Valid()
      ensures forall q :: Tags(q) == if q == p then old(Tags(p)) + {tag} else old(Tags(q))
    {
      protectedPeers := protectedPeers[p := Tags(p) + {tag}];
    }

    /** True while another tag still protects the peer. */
    method Unprotect(p: PeerId, tag: string) returns (still: bool)
      requires Valid()
      modifies this`protectedPeers
      ensures Valid()
      ensures forall q :: Tags(q) == if q == p then old(Tags(p)) - {tag} else old(Tags(q))
      ensures still == (p in protectedPeers) == (Tags(p) != {})
    {
      if p !in protectedPeers {
        return false;
      }
      var tags := protectedPeers[p] - {tag};
      still := tags != {};
      protectedPeers := if still then protectedPeers[p := tags] else protectedPeers - {p};
    }

    ghost predicate HasOutgoing(p: PeerId)
      reads store
    {
      p in store.muxed && exists i :: 0 <= i < |store.muxed[p]| && store.muxed[p][i].outgoing
    }

    ghost function Score(p: PeerId): int
      reads this, store
    {
      (if HasOutgoing(p) then outboundBonus else 0) +
      Sum(if p in staticTags then staticTags[p] else map[]) +
      Sum(if p in decayingTags then decayingTags[p] else map[])
    }

    /** The bonus of a peer this side dialed, and all its tags. */
    method PeerScore(p: PeerId) returns (score: int)
      ensures score == Score(p)
      ensures var dialed := p in store.muxed && exists m :: m in store.muxed[p] && m.outgoing;
              score == (if dialed then outboundBonus else 0) +
                       (if p in staticTags then Sum(staticTags[p]) else 0) +
                       (if p in decayingTags then Sum(decayingTags[p]) else 0)
    {
      score := 0;
      var found := false;
      if p in store.muxed {
        var list := store.muxed[p];
        for i := 0 to |list|
          invariant found <==> exists j :: 0 <= j < i && list[j].outgoing
        {
          if list[i].outgoing {
            found := true;
            break;
          }
        }
      }
      if found {
        score := score + outboundBonus;
      }
      if p in staticTags {
        var s := Total(staticTags[p]);
        score := score + s;
      }
      if p in decayingTags {
        var s := Total(decayingTags[p]);
        score := score + s;
      }
    }

    function ConnTime(p: PeerId, now: int): int
      reads this
    {
      if p in connectedAt then connectedAt[p] else now
    }

    /** A peer a trim leaves alone: connected too recently, or protected. */
    predicate Exempt(p: PeerId, w: Watermark, now: int)
      reads this
    {
      Elapsed(now, ConnTime(p, now)) < w.gracePeriod || Tags(p) != {}
    }

    ghost function ExemptPeers(w: Watermark, now: int): set<PeerId>
      reads this, store
    {
      set p | p in store.muxed && Exempt(p, w, now)
    }

    ghost function EntryOf(p: PeerId, now: int): Entry
      reads this, store
    {
      Entry(Score(p), ConnTime(p, now), p)
    }

    /** The connected peers that are not exempt, each once. */
    method Candidates(w: Watermark, now: int) returns (r: seq<Entry>)
      ensures forall e :: e in r ==> e == EntryOf(e.peer, now)
      ensures Peers(r) == store.muxed.Keys - ExemptPeers(w, now) && |Peers(r)| == |r|
    {
      hide Peers, Score, Exempt;
      r := [];
      var todo := store.muxed.Keys;
      NoPeers();
      while todo != {}
        invariant todo <= store.muxed.Keys
        invariant forall e :: e in r ==> e == EntryOf(e.peer, now)
        invariant forall p :: p in Peers(r) <==> p in store.muxed && p !in todo && !Exempt(p, w, now)
        invariant |Peers(r)| == |r|
        decreases |todo|
      {
        var p :| p in todo;
        if !Exempt(p, w, now) {
          var score := PeerScore(p);
          var e := Entry(score, ConnTime(p, now), p);
          PeersMore(r, e);
          r := r + [e];
        }
        todo := todo - {p};
      }
    }

    method SortedCandidates(w: Watermark, now: int) returns (r: seq<Entry>)
      ensures Sorted(r)
      ensures forall e :: e in r ==> e.peer in Peers(r) && e == EntryOf(e.peer, now)
      ensures Peers(r) == store.muxed.Keys - ExemptPeers(w, now) && |Peers(r)| == |r|
    {
      hide Peers, EntryOf, ExemptPeers, Sorted;
      var found := Candidates(w, now);
      r := Sort(found);
      PeersOfSame(r, found);
      PeersHold(r);
    }

    /** Drops the peers of the list, in its order, until the mark is reached. */
    method DropUntil(s: seq<Entry>, lowWater: nat) returns (n: nat)
      requires Valid()
      requires |Peers(s)| == |s| && Peers(s) <= store.muxed.Keys
      modifies store
      ensures Valid()
      ensures n <= |s| && |Peers(s[..n])| == n && store.muxed == old(store.muxed) - Peers(s[..n])
      ensures |store.muxed| == |old(store.muxed)| - n
      ensures n < |s| ==> |store.muxed| <= lowWater
      ensures n > 0 ==> |store.muxed| >= lowWater
    {
      hide Peers;
      n := 0;
      NoPeers();
      while n < |s| && store.CountPeers() > lowWater
        invariant n <= |s| && Valid()
        invariant store.muxed == old(store.muxed) - Peers(s[..n])
        invariant |store.muxed| == |old(store.muxed)| - n
        invariant n > 0 ==> |store.muxed| >= lowWater
      {
        assert s[..n + 1] == s[..n] + [s[n]];
        PeersMore(s[..n], s[n]);
        PeersOfPrefix(s, n + 1);
        PeersOfPart(s, n + 1);
        CountLeft(old(store.muxed), Peers(s[..n + 1]));
        var _ := store.RemovePeer(s[n].peer);
        assert old(store.muxed) - Peers(s[..n]) - {s[n].peer} == old(store.muxed) - Peers(s[..n + 1]);
        n := n + 1;
      }
      PeersOfPrefix(s, n);
    }

    /** `trimConnections` up to its wait: the lowest scored, longest connected peers go, until the low mark is
        reached or only those are left that connected too recently or are protected. */
    method TrimConnections(w: Watermark, now: int) returns (dropped: set<PeerId>, ghost spared: set<PeerId>)
      requires Valid()
      modifies store
      ensures Valid()
      ensures dropped <= old(store.muxed.Keys) && store.muxed == old(store.muxed) - dropped
      ensures forall p :: p in spared <==>
                && p in old(store.muxed)
                && (|| (if p in connectedAt && connectedAt[p] <= now then now - connectedAt[p] else 0) < w.gracePeriod
                    || p in protectedPeers)
      ensures dropped !! spared
      ensures |store.muxed| ==
              if |old(store.muxed)| <= w.lowWater then |old(store.muxed)|
              else if |spared| <= w.lowWater then w.lowWater
              else |spared|
      ensures forall p, q :: p in dropped && q in store.muxed && q !in spared ==>
                || old(Score(p)) < old(Score(q))
                || (old(Score(p)) == old(Score(q)) &&
                    (if p in connectedAt then connectedAt[p] else now) <= (if q in connectedAt then connectedAt[q] else now))
    {
      hide Score, ExemptPeers;
      spared := ExemptPeers(w, now);
      ExemptAre(w, now);
      dropped := DropLowest(w, now);
    }

    /** The trim, over the entries of the peers. */
    method DropLowest(w: Watermark, now: int) returns (dropped: set<PeerId>)
      requires Valid()
      modifies store
      ensures Valid()
      ensures dropped <= old(store.muxed.Keys) && store.muxed == old(store.muxed) - dropped
      ensures dropped !! old(ExemptPeers(w, now))
      ensures |store.muxed| == TrimmedTo(|old(store.muxed)|, w.lowWater, |old(ExemptPeers(w, now))|)
      ensures forall p, q :: p in dropped && q in store.muxed && q !in old(ExemptPeers(w, now)) ==>
                AtMost(old(EntryOf(p, now)), old(EntryOf(q, now)))
    {
      hide Peers, EntryOf, ExemptPeers, Sorted, AtMost, TrimmedTo;
      ghost var keys, exempt := store.muxed.Keys, ExemptPeers(w, now);
      ghost var entries := map p | p in keys :: EntryOf(p, now);
      ExemptConnected(w, now);
      var sorted := SortedCandidates(w, now);
      var n := DropUntil(sorted, w.lowWater);
      dropped := Peers(sorted[..n]);
      TrimOutcome(keys, exempt, entries, sorted, n, w.lowWater);
      assert forall p :: p in keys ==> entries[p] == old(EntryOf(p, now));
    }

    lemma {:induction false} ExemptConnected(w: Watermark, now: int)
      ensures ExemptPeers(w, now) <= store.muxed.Keys
    {
    }

    lemma {:induction false} ExemptAre(w: Watermark, now: int)
      requires Valid()
      ensures forall p :: p in ExemptPeers(w, now) <==>
                && p in store.muxed
                && (|| (if p in connectedAt && connectedAt[p] <= now then now - connectedAt[p] else 0) < w.gracePeriod
                    || p in protectedPeers)
    {
    }

    /** `triggerTrim`: a trim starts only if none is under way, the high mark is passed and the last trim is
        long enough ago. */
    method TriggerTrim(w: Option<Watermark>, ongoing: bool, lastTrim: Option<int>, now: int)
      returns (started: bool, dropped: set<PeerId>, ghost spared: set<PeerId>)
      requires Valid()
      modifies store
      ensures Valid()
      ensures started <==>
              && !ongoing && w.Some? && |old(store.muxed)| > w.value.highWater
              && (lastTrim.None? || Elapsed(now, lastTrim.value) >= w.value.silencePeriod)
      ensures store.muxed == old(store.muxed) - dropped && (!started ==> dropped == {})
      ensures started ==>
                && (forall p :: p in spared <==>
                      && p in old(store.muxed)
                      && (|| (if p in connectedAt && connectedAt[p] <= now then now - connectedAt[p] else 0) < w.value.gracePeriod
                          || p in protectedPeers))
                && dropped !! spared
                && |store.muxed| == if |spared| <= w.value.lowWater < |old(store.muxed)| then w.value.lowWater
                                    else if |old(store.muxed)| <= w.value.lowWater then |old(store.muxed)| else |spared|
    {
      started, dropped, spared := false, {}, {};
      if ongoing || w.None? || store.CountPeers() <= w.value.highWater {
        return;
      }
      if lastTrim.Some? && Elapsed(now, lastTrim.value) < w.value.silencePeriod {
        return;
      }
      started := true;
      dropped, spared := TrimConnections(w.value, now);
    }
  }

  /** The time between two moments, never negative. */
  function Elapsed(now: int, since: int): int {
    if now < since then 0 else now - since
  }

  lemma {:induction false} NoPeers()
    ensures Peers([]) == {}
  {
  }

  lemma {:induction false} PrefixHolds(s: seq<Entry>, i: nat)
    requires i <= |s|
    ensures forall k :: 0 <= k < i ==> s[k].peer in Peers(s[..i])
  {
    forall k | 0 <= k < i
      ensures s[k].peer in Peers(s[..i])
    {
      assert s[..i][k].peer == s[k].peer;
    }
  }

  lemma {:induction false} PeersHold(s: seq<Entry>)
    ensures forall e :: e in s ==> e.peer in Peers(s)
  {
  }

  lemma {:induction false} PeersOfPart(s: seq<Entry>, i: nat)
    requires i <= |s|
    ensures Peers(s[..i]) <= Peers(s)
    ensures i == |s| ==> s[..i] == s
  {
    forall p | p in Peers(s[..i])
      ensures p in Peers(s)
    {
      var k :| 0 <= k < i && s[..i][k].peer == p;
      assert s[k].peer == p;
    }
  }

  lemma {:induction false} CountLeft(m: map<PeerId, seq<Muxer>>, gone: set<PeerId>)
    requires gone <= m.Keys
    ensures |m - gone| == |m| - |gone|
  {
    assert (m - gone).Keys == m.Keys - gone;
    assert |m - gone| == |(m - gone).Keys| && |m| == |m.Keys|;
  }

  /** How many peers a trim leaves. */
  function TrimmedTo(peers: nat, lowWater: nat, exempt: nat): nat {
    if peers <= lowWater then peers
    else if exempt <= lowWater then lowWater
    else exempt
  }
}
