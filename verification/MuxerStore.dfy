/** The muxers of each connected peer (`libp2p/muxer_store.nim`). */
module MuxerStores {
  import opened Basics

  /** A muxer is known by its identity; its connection names the peer and the direction. */
  datatype Muxer = Muxer(id: nat, peer: PeerId, outgoing: bool)

  lemma {:induction false} SwapDeleteIsRemoval(s: seq<Muxer>, i: nat)
    requires Distinct(s) && i < |s|
    ensures Distinct(SwapDelete(s, i))
    ensures forall m :: m in SwapDelete(s, i) <==> m in s && m != s[i]
  {
    var r := SwapDelete(s, i);
    forall m
      ensures m in r <==> m in s && m != s[i]
    {
      if m in s && m != s[i] {
        var k :| 0 <= k < |s| && s[k] == m;
        assert r[if k == |s| - 1 then i else k] == m;
      }
      if m in r {
        var k :| 0 <= k < |r| && r[k] == m;
        assert m == s[if k == i then |s| - 1 else k];
      }
    }
  }

  class MuxerStore {
    var muxed: map<PeerId, seq<Muxer>>

    /** Each peer in the table has muxers, all of them its own, none twice. */
    ghost predicate Valid()
      reads this
    {
      forall p :: p in muxed ==>
        muxed[p] != [] && Distinct(muxed[p]) && forall m :: m in muxed[p] ==> m.peer == p
    }

    predicate Has(m: Muxer)
      reads this
    {
      m.peer in muxed && m in muxed[m.peer]
    }

    constructor ()
      ensures Valid() && muxed == map[]
    {
      muxed := map[];
    }

    function CountPeers(): nat
      reads this
    {
      |muxed|
    }

    function Count(p: PeerId): nat
      reads this
    {
      if p in muxed then |muxed[p]| else 0
    }

    method Add(m: Muxer) returns (added: bool)
      requires Valid()
      modifies this
      ensures Valid()
      ensures added == !old(Has(m))
      ensures forall x :: Has(x) <==> old(Has(x)) || x == m
      ensures Count(m.peer) == old(Count(m.peer)) + if added then 1 else 0
      ensures muxed.Keys == old(muxed.Keys) + {m.peer}
    {
      if m.peer in muxed {
        if m in muxed[m.peer] {
          return false;
        }
        muxed := muxed[m.peer := muxed[m.peer] + [m]];
        return true;
      }
      muxed := muxed[m.peer := [m]];
      added := true;
    }

    /** A peer leaves with all its muxers. */
    method RemovePeer(p: PeerId) returns (muxers: seq<Muxer>)
      requires Valid()
      modifies this
      ensures Valid()
      ensures muxed == old(muxed) - {p}
      ensures forall m :: m in muxers <==> old(Has(m)) && m.peer == p
      ensures |muxers| == old(Count(p))
    {
      muxers := if p in muxed then muxed[p] else [];
      muxed := muxed - {p};
    }

    /** A muxer leaves, and its peer with its last one. */
    method Remove(m: Muxer) returns (removed: bool)
      requires Valid()
      modifies this
      ensures Valid()
      ensures removed == old(Has(m))
      ensures forall x :: Has(x) <==> old(Has(x)) && x != m
      ensures muxed.Keys == if old(Count(m.peer)) == 1 && removed then old(muxed.Keys) - {m.peer} else old(muxed.Keys)
    {
      if m.peer !in muxed {
        return false;
      }
      var list := muxed[m.peer];
      var i := 0;
      while i < |list| && list[i] != m
        invariant 0 <= i <= |list|
        invariant forall k :: 0 <= k < i ==> list[k] != m
      {
        i := i + 1;
      }
      if i == |list| {
        return false;
      }
      SwapDeleteIsRemoval(list, i);
      list := SwapDelete(list, i);
      muxed := if list == [] then muxed - {m.peer} else muxed[m.peer := list];
      removed := true;
    }
  }
}
