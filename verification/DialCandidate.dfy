/** The dial rank of `libp2p/dialcandidate.nim`. */
module DialCandidate {
  import opened Multiaddress
  import opened Multicodec
  import opened Patterns
  import opened ShippedPatterns

  /** From the first candidate dialed to the last. */
  datatype DialRank = DirectQuic | Direct | RelayQuic | Relay

  function Order(r: DialRank): nat {
    match r
    case DirectQuic => 0
    case Direct => 1
    case RelayQuic => 2
    case Relay => 3
  }

  function Codes(parts: seq<Component>): (codes: seq<nat>)
    ensures |codes| == |parts| && forall i :: 0 <= i < |codes| ==> codes[i] == parts[i].code
  {
    seq(|parts|, i requires 0 <= i < |parts| => parts[i].code)
  }

  /** `address.contains(codec).get(false)`: an error behind the component does not hide it. */
  predicate Contains(reg: Registry, address: Address, code: nat) {
    code in Codes(Items(reg, address).parts)
  }

  /** `pat.matchPartial(address)`: false on an address that does not list its protocols. */
  predicate MatchesAddress(reg: Registry, pat: Pattern, address: Address) {
    Items(reg, address).complete && MatchesPartial(pat, Codes(Items(reg, address).parts))
  }

  function RankOf(reg: Registry, address: Address): DialRank {
    var relayed := Contains(reg, address, CIRCUIT_CODE);
    var quic := MatchesAddress(reg, QuicV1(), address) || MatchesAddress(reg, Quic(), address);
    if relayed then (if quic then RelayQuic else Relay)
    else (if quic then DirectQuic else Direct)
  }

  lemma {:induction false} HostLang(w: seq<nat>)
    ensures InLang(Ip(), w) <==> |w| == 1 && w[0] in {IP4_CODE, IP6_CODE}
    ensures InLang(Dns(), w) <==> |w| == 1 && w[0] in {DNS_CODE, DNS4_CODE, DNS6_CODE, DNSADDR_CODE}
  {
    var ip, dns := Ip().args, Dns().args;
    if |w| == 1 {
      assert w == [w[0]];
      assert forall i :: 0 <= i < |ip| ==> (InLang(ip[i], w) <==> w[0] == ip[i].value);
      assert forall i :: 0 <= i < |dns| ==> (InLang(dns[i], w) <==> w[0] == dns[i].value);
      assert ip[0] == Eq(IP4_CODE) && ip[1] == Eq(IP6_CODE);
      assert dns[0] == Eq(DNS_CODE) && dns[1] == Eq(DNS4_CODE) && dns[2] == Eq(DNS6_CODE) && dns[3] == Eq(DNSADDR_CODE);
    }
  }

  lemma {:induction false} OverSplits(p: Pattern, code: nat, w: seq<nat>)
    requires InLang(Over(p, code), w)
    ensures w != [] && w[|w| - 1] == code && InLang(p, w[..|w| - 1])
  {
    var pat := Over(p, code);
    assert InSeq(pat, w, 0);
    var k :| 0 <= k <= |w| && InLang(pat.args[0], w[..k]) && InSeq(pat, w[k..], 1);
    var v := w[k..];
    var j :| 0 <= j <= |v| && InLang(pat.args[1], v[..j]) && InSeq(pat, v[j..], 2);
    assert pat.args[0] == p && pat.args[1] == Eq(code);
    assert v[..j] == [code] && v[j..] == [];
    hide InLang, InSeq;
    assert |w| == k + 1;
  }

  lemma {:induction false} OverJoins(p: Pattern, code: nat, w: seq<nat>)
    requires w != [] && w[|w| - 1] == code && InLang(p, w[..|w| - 1])
    ensures InLang(Over(p, code), w)
  {
    var pat := Over(p, code);
    var k := |w| - 1;
    var v := w[k..];
    assert pat.args[0] == p && pat.args[1] == Eq(code);
    assert v == [code] && v[..1] == v && v[1..] == [];
    assert InSeq(pat, [], 2);
    assert InLang(pat.args[1], v[..1]);
    assert InSeq(pat, v, 1);
    assert InSeq(pat, w, 0);
  }

  /** A pattern with one more code behind it. */
  lemma {:induction false} OverLang(p: Pattern, code: nat, w: seq<nat>)
    ensures InLang(Over(p, code), w) <==> w != [] && w[|w| - 1] == code && InLang(p, w[..|w| - 1])
  {
    hide InLang;
    if InLang(Over(p, code), w) {
      OverSplits(p, code, w);
    }
    if w != [] && w[|w| - 1] == code && InLang(p, w[..|w| - 1]) {
      OverJoins(p, code, w);
    }
  }

  lemma {:induction false} EitherLang(p: Pattern, q: Pattern, w: seq<nat>)
    ensures InLang(Or([p, q]), w) <==> InLang(p, w) || InLang(q, w)
  {
    var args := [p, q];
    assert args[0] == p && args[1] == q;
    assert InLang(Or(args), w) <==> exists i :: 0 <= i < |args| && InLang(args[i], w);
  }

  lemma {:induction false} UdpLang(last: nat, w: seq<nat>)
    ensures InLang(Or([Over(UdpDns(), last), Over(UdpIp(), last)]), w)
      <==> |w| == 3 && w[0] in HOSTS && w[1] == UDP_CODE && w[2] == last
  {
    hide InLang, Dns, Ip;
    EitherLang(Over(UdpDns(), last), Over(UdpIp(), last), w);
    OverLang(UdpDns(), last, w);
    OverLang(UdpIp(), last, w);
    if |w| > 0 {
      var v := w[..|w| - 1];
      OverLang(Dns(), UDP_CODE, v);
      OverLang(Ip(), UDP_CODE, v);
      if |v| > 0 {
        HostLang(v[..|v| - 1]);
      }
    }
  }

  /** What the prefix match ranks as QUIC: a host, then `udp`, then `quic` or `quic-v1`. */
  predicate StartsQuic(codes: seq<nat>) {
    |codes| >= 3 && codes[0] in HOSTS && codes[1] == UDP_CODE && codes[2] in {QUIC_CODE, QUIC_V1_CODE}
  }

  lemma {:induction false} QuicMatches(codes: seq<nat>)
    ensures MatchesPartial(QuicV1(), codes) || MatchesPartial(Quic(), codes) <==> StartsQuic(codes)
  {
    ShippedAreExact(QUIC_V1, codes);
    ShippedAreExact(QUIC, codes);
    hide InLang, MatchesPartial;
    forall k | 0 <= k <= |codes|
      ensures InLang(Quic(), codes[..k]) <==> k == 3 && codes[0] in HOSTS && codes[1] == UDP_CODE && codes[2] == QUIC_CODE
      ensures InLang(QuicV1(), codes[..k]) <==> k == 3 && codes[0] in HOSTS && codes[1] == UDP_CODE && codes[2] == QUIC_V1_CODE
    {
      UdpLang(QUIC_CODE, codes[..k]);
      UdpLang(QUIC_V1_CODE, codes[..k]);
    }
    hide Quic, QuicV1;
    if |codes| >= 3 {
      var w := codes[..3];
      assert w[0] == codes[0] && w[1] == codes[1] && w[2] == codes[2];
    }
  }

  /** On a readable address: relayed ranks behind direct, and QUIC in front of the rest within each. */
  lemma {:induction false} RankMeaning(reg: Registry, address: Address)
    requires Items(reg, address).complete
    ensures var codes := Codes(Items(reg, address).parts);
      && (Order(RankOf(reg, address)) >= 2 <==> CIRCUIT_CODE in codes)
      && (Order(RankOf(reg, address)) % 2 == 0 <==> StartsQuic(codes))
  {
    hide MatchesPartial, Items;
    QuicMatches(Codes(Items(reg, address).parts));
  }
}
