/** A check on patterns under which the greedy matcher is exact, and the patterns
    `libp2p/multiaddress.nim` ships, all of which pass it. */
module ShippedPatterns {
  import opened Multicodec
  import opened Patterns

  /** Every code a pattern mentions. */
  ghost function Letters(pat: Pattern): set<nat> {
    match pat
    case Eq(v) => {v}
    case _ => set i, x | 0 <= i < |pat.args| && x in Letters(pat.args[i]) :: x
  }

  /** Every code one of its words can begin with. */
  ghost function Firsts(pat: Pattern): set<nat> {
    match pat
    case Eq(v) => {v}
    case Or(args) => set i, x | 0 <= i < |args| && x in Firsts(args[i]) :: x
    case And(args) => if args == [] then {} else Firsts(args[0])
  }

  /** No `And` is empty, and no part of one mentions a code the next part can begin with. */
  ghost predicate Checked(pat: Pattern) {
    match pat
    case Eq(_) => true
    case Or(args) => forall i :: 0 <= i < |args| ==> Checked(args[i])
    case And(args) =>
      && args != []
      && (forall i :: 0 <= i < |args| ==> Checked(args[i]))
      && (forall i :: 0 < i < |args| ==> Letters(args[i - 1]) !! Firsts(args[i]))
  }

  lemma {:induction false} WordLetters(pat: Pattern, w: seq<nat>)
    requires InLang(pat, w)
    ensures forall i :: 0 <= i < |w| ==> w[i] in Letters(pat)
    decreases pat, 1, 0
  {
    match pat
    case Eq(v) =>
    case Or(args) =>
      var i :| 0 <= i < |args| && InLang(args[i], w);
      WordLetters(args[i], w);
    case And(args) =>
      SeqLetters(pat, w, 0);
  }

  lemma {:induction false} SeqLetters(pat: Pattern, w: seq<nat>, i: nat)
    requires pat.And? && i <= |pat.args| && InSeq(pat, w, i)
    ensures forall j :: 0 <= j < |w| ==> w[j] in Letters(pat)
    decreases pat, 0, |pat.args| - i
  {
    if i < |pat.args| {
      var k :| 0 <= k <= |w| && InLang(pat.args[i], w[..k]) && InSeq(pat, w[k..], i + 1);
      WordLetters(pat.args[i], w[..k]);
      SeqLetters(pat, w[k..], i + 1);
      forall j | 0 <= j < |w| ensures w[j] in Letters(pat) {
        assert w[j] == if j < k then w[..k][j] else w[k..][j - k];
      }
    }
  }

  lemma {:induction false} WordFirst(pat: Pattern, w: seq<nat>)
    requires Checked(pat) && InLang(pat, w)
    ensures w != [] && w[0] in Firsts(pat)
    decreases pat
  {
    match pat
    case Eq(v) =>
    case Or(args) =>
      var i :| 0 <= i < |args| && InLang(args[i], w);
      WordFirst(args[i], w);
    case And(args) =>
      assert InSeq(pat, w, 0);
      var k :| 0 <= k <= |w| && InLang(args[0], w[..k]) && InSeq(pat, w[k..], 1);
      WordFirst(args[0], w[..k]);
      assert w[..k][0] == w[0];
  }

  /** The check is enough: a checked pattern is greedy-safe, so the matcher decides its language. */
  lemma {:induction false} CheckedIsSafe(pat: Pattern)
    requires Checked(pat)
    ensures GreedySafe(pat) && EpsilonFree(pat)
  {
    hide InLang;
    if InLang(pat, []) {
      WordFirst(pat, []);
    }
    match pat
    case Eq(_) =>
    case Or(args) =>
      forall i | 0 <= i < |args| ensures GreedySafe(args[i]) {
        CheckedIsSafe(args[i]);
      }
    case And(args) =>
      forall i | 0 <= i < |args| ensures GreedySafe(args[i]) && EpsilonFree(args[i]) {
        CheckedIsSafe(args[i]);
      }
      forall i | 0 < i < |args| ensures NoOverrun(args[i - 1], args[i]) {
        DisjointNoOverrun(args[i - 1], args[i]);
      }
  }

  lemma {:induction false} DisjointNoOverrun(p: Pattern, q: Pattern)
    requires Checked(q) && Letters(p) !! Firsts(q)
    ensures NoOverrun(p, q)
  {
    hide InLang, Letters, Firsts, Checked;
    forall u, v, z | InLang(p, u) && InLang(p, v) && u < v && InLang(q, z) && z != []
      ensures z[0] != v[|u|]
    {
      WordLetters(p, v);
      WordFirst(q, z);
    }
  }

  /** A checked pattern, with bounds on the codes it begins with and mentions. */
  ghost predicate Within(pat: Pattern, firsts: set<nat>, letters: set<nat>) {
    Checked(pat) && Firsts(pat) <= firsts && Letters(pat) <= letters
  }

  lemma {:induction false} WithinEq(v: nat, firsts: set<nat>, letters: set<nat>)
    requires v in firsts && v in letters
    ensures Within(Eq(v), firsts, letters)
  {
  }

  lemma {:induction false} WithinOr(args: seq<Pattern>, firsts: set<nat>, letters: set<nat>)
    requires forall p :: p in args ==> Within(p, firsts, letters)
    ensures Within(Or(args), firsts, letters)
  {
    forall i | 0 <= i < |args| ensures Within(args[i], firsts, letters) {
      assert args[i] in args;
    }
  }

  /** `mapAnd(p, q)`. */
  lemma {:induction false} WithinAnd(
      p: Pattern, q: Pattern, firsts: set<nat>, before: set<nat>, next: set<nat>, letters: set<nat>)
    requires Within(p, firsts, before) && Within(q, next, letters) && before !! next && before <= letters
    ensures Within(And([p, q]), firsts, letters)
  {
    var args := [p, q];
    assert args[0] == p && args[1] == q;
  }

  function Ip(): Pattern { Or([Eq(IP4_CODE), Eq(IP6_CODE)]) }
  function Dns(): Pattern { Or([Eq(DNS_CODE), Eq(DNS4_CODE), Eq(DNS6_CODE), Eq(DNSADDR_CODE)]) }
  function Over(host: Pattern, code: nat): Pattern { And([host, Eq(code)]) }
  function Tcp(): Pattern { Or([Over(Dns(), TCP_CODE), Over(Ip(), TCP_CODE)]) }
  function UdpDns(): Pattern { Over(Dns(), UDP_CODE) }
  function UdpIp(): Pattern { Over(Ip(), UDP_CODE) }
  function Udp(): Pattern { Or([UdpDns(), UdpIp()]) }
  function Quic(): Pattern { Or([Over(UdpDns(), QUIC_CODE), Over(UdpIp(), QUIC_CODE)]) }
  function QuicV1(): Pattern { Or([Over(UdpDns(), QUIC_V1_CODE), Over(UdpIp(), QUIC_V1_CODE)]) }
  function TlsSni(): Pattern { And([Eq(TLS_CODE), Eq(SNI_CODE)]) }
  function TlsBeforeWs(): Pattern { And([Or([Eq(TLS_CODE), TlsSni()]), Eq(WS_CODE)]) }
  function TlsWs(): Pattern { Or([Eq(WSS_CODE), TlsBeforeWs()]) }
  function Wss(host: Pattern): Pattern { And([host, TlsWs()]) }
  function WebSockets(host: Pattern): Pattern { Or([Over(host, WS_CODE), Wss(host)]) }
  function Reliable(): Pattern { Or([Tcp(), Over(Udp(), UTP_CODE), Quic(), WebSockets(Tcp())]) }
  function Web(code: nat): Pattern { Or([Over(Tcp(), code), Over(Ip(), code), Over(Dns(), code)]) }

  /** The patterns by their names in the source. */
  datatype Name =
    | DNSANY | DNS4 | DNS6 | DNSADDR | IP4 | IP6 | DNS | IP | DNS_OR_IP
    | TCP_DNS | TCP_IP | TCP | UDP_DNS | UDP_IP | UDP | UTP
    | QUIC_IP | QUIC_DNS | QUIC | QUIC_V1_IP | QUIC_V1_DNS | QUIC_V1
    | TCP_IP4 | TCP_IP6 | UDP_IP4 | QUIC_V1_IP4 | UNIX
    | WS_DNS | WS_IP | WS | TLS | SNI | TLS_SNI | TLS_WS | WSS_DNS | WSS_IP | WSS
    | WEBSOCKETS_DNS | WEBSOCKETS_IP | WEBSOCKETS | ONION3 | TCP_ONION3
    | UNRELIABLE | RELIABLE | P2P | IPFS | HTTP | HTTPS | WEBRTC_DIRECT | CIRCUIT_RELAY | MEMORY

  function Shipped(name: Name): Pattern {
    match name
    case DNSANY => Eq(DNS_CODE)
    case DNS4 => Eq(DNS4_CODE)
    case DNS6 => Eq(DNS6_CODE)
    case DNSADDR => Eq(DNSADDR_CODE)
    case IP4 => Eq(IP4_CODE)
    case IP6 => Eq(IP6_CODE)
    case DNS => Dns()
    case IP => Ip()
    case DNS_OR_IP => Or([Dns(), Ip()])
    case TCP_DNS => Over(Dns(), TCP_CODE)
    case TCP_IP => Over(Ip(), TCP_CODE)
    case TCP => Tcp()
    case UDP_DNS => UdpDns()
    case UDP_IP => UdpIp()
    case UDP => Udp()
    case UTP => Over(Udp(), UTP_CODE)
    case QUIC_IP => Over(UdpIp(), QUIC_CODE)
    case QUIC_DNS => Over(UdpDns(), QUIC_CODE)
    case QUIC => Quic()
    case QUIC_V1_IP => Over(UdpIp(), QUIC_V1_CODE)
    case QUIC_V1_DNS => Over(UdpDns(), QUIC_V1_CODE)
    case QUIC_V1 => QuicV1()
    case TCP_IP4 => Over(Eq(IP4_CODE), TCP_CODE)
    case TCP_IP6 => Over(Eq(IP6_CODE), TCP_CODE)
    case UDP_IP4 => Over(Eq(IP4_CODE), UDP_CODE)
    case QUIC_V1_IP4 => Over(Over(Eq(IP4_CODE), UDP_CODE), QUIC_V1_CODE)
    case UNIX => Eq(UNIX_CODE)
    case WS_DNS => Over(Over(Dns(), TCP_CODE), WS_CODE)
    case WS_IP => Over(Over(Ip(), TCP_CODE), WS_CODE)
    case WS => Over(Tcp(), WS_CODE)
    case TLS => Eq(TLS_CODE)
    case SNI => Eq(SNI_CODE)
    case TLS_SNI => TlsSni()
    case TLS_WS => TlsWs()
    case WSS_DNS => Wss(Over(Dns(), TCP_CODE))
    case WSS_IP => Wss(Over(Ip(), TCP_CODE))
    case WSS => Wss(Tcp())
    case WEBSOCKETS_DNS => WebSockets(Over(Dns(), TCP_CODE))
    case WEBSOCKETS_IP => WebSockets(Over(Ip(), TCP_CODE))
    case WEBSOCKETS => WebSockets(Tcp())
    case ONION3 => Eq(ONION3_CODE)
    case TCP_ONION3 => Over(Tcp(), ONION3_CODE)
    case UNRELIABLE => Or([Udp()])
    case RELIABLE => Reliable()
    case P2P => Eq(P2P_CODE)
    case IPFS => Over(Reliable(), IPFS_CODE)
    case HTTP => Web(HTTP_CODE)
    case HTTPS => Web(HTTPS_CODE)
    case WEBRTC_DIRECT => Or([Over(Web(HTTP_CODE), WEBRTC_DIRECT_CODE), Over(Web(HTTPS_CODE), WEBRTC_DIRECT_CODE)])
    case CIRCUIT_RELAY => Eq(CIRCUIT_CODE)
    case MEMORY => Eq(MEMORY_CODE)
  }

  const HOSTS: set<nat> := {IP4_CODE, IP6_CODE, DNS_CODE, DNS4_CODE, DNS6_CODE, DNSADDR_CODE}
  const SECURE: set<nat> := {TLS_CODE, SNI_CODE, WS_CODE, WSS_CODE}
  const STREAMED: set<nat> := HOSTS + {TCP_CODE}
  const PACKETS: set<nat> := HOSTS + {UDP_CODE}
  const WEBBED: set<nat> := STREAMED + SECURE
  const RELIABLE_CODES: set<nat> := WEBBED + {UDP_CODE, UTP_CODE, QUIC_CODE}

  lemma {:induction false} WithinOver(p: Pattern, code: nat, letters: set<nat>)
    requires Within(p, HOSTS, letters) && code !in letters
    ensures Within(Over(p, code), HOSTS, letters + {code})
  {
    hide Checked, Firsts, Letters;
    WithinEq(code, {code}, letters + {code});
    WithinAnd(p, Eq(code), HOSTS, letters, {code}, letters + {code});
  }

  lemma {:induction false} WithinMore(p: Pattern, firsts: set<nat>, letters: set<nat>, more: set<nat>)
    requires Within(p, firsts, letters) && letters <= more
    ensures Within(p, firsts, more)
  {
    hide Checked, Firsts, Letters;
  }

  lemma {:induction false} WithinWider(p: Pattern, firsts: set<nat>, more: set<nat>, letters: set<nat>)
    requires Within(p, firsts, letters) && firsts <= more
    ensures Within(p, more, letters)
  {
    hide Checked, Firsts, Letters;
  }

  lemma {:induction false} WithinEither(p: Pattern, q: Pattern, firsts: set<nat>, letters: set<nat>)
    requires Within(p, firsts, letters) && Within(q, firsts, letters)
    ensures Within(Or([p, q]), firsts, letters)
  {
    hide Within;
    WithinOr([p, q], firsts, letters);
  }

  lemma {:induction false} Hosts()
    ensures Within(Ip(), HOSTS, HOSTS) && Within(Dns(), HOSTS, HOSTS)
    ensures Within(Eq(IP4_CODE), HOSTS, HOSTS) && Within(Eq(IP6_CODE), HOSTS, HOSTS)
  {
    hide Within;
    WithinEq(IP4_CODE, HOSTS, HOSTS);
    WithinEq(IP6_CODE, HOSTS, HOSTS);
    WithinEq(DNS_CODE, HOSTS, HOSTS);
    WithinEq(DNS4_CODE, HOSTS, HOSTS);
    WithinEq(DNS6_CODE, HOSTS, HOSTS);
    WithinEq(DNSADDR_CODE, HOSTS, HOSTS);
    WithinEither(Eq(IP4_CODE), Eq(IP6_CODE), HOSTS, HOSTS);
    WithinOr([Eq(DNS_CODE), Eq(DNS4_CODE), Eq(DNS6_CODE), Eq(DNSADDR_CODE)], HOSTS, HOSTS);
  }

  /** Every host over TCP or UDP. */
  lemma {:induction false} Carried(code: nat)
    requires code !in HOSTS
    ensures Within(Over(Dns(), code), HOSTS, HOSTS + {code}) && Within(Over(Ip(), code), HOSTS, HOSTS + {code})
    ensures Within(Or([Over(Dns(), code), Over(Ip(), code)]), HOSTS, HOSTS + {code})
  {
    hide Within, Dns, Ip;
    Hosts();
    WithinOver(Dns(), code, HOSTS);
    WithinOver(Ip(), code, HOSTS);
    WithinEither(Over(Dns(), code), Over(Ip(), code), HOSTS, HOSTS + {code});
  }

  /** A code over UDP, by name and by IP. */
  lemma {:induction false} OverUdp(code: nat)
    requires code !in PACKETS
    ensures Within(Over(UdpDns(), code), HOSTS, PACKETS + {code})
    ensures Within(Over(UdpIp(), code), HOSTS, PACKETS + {code})
    ensures Within(Or([Over(UdpDns(), code), Over(UdpIp(), code)]), HOSTS, PACKETS + {code})
  {
    hide Within, Dns, Ip;
    Carried(UDP_CODE);
    WithinOver(UdpDns(), code, PACKETS);
    WithinOver(UdpIp(), code, PACKETS);
    WithinEither(Over(UdpDns(), code), Over(UdpIp(), code), HOSTS, PACKETS + {code});
  }

  lemma {:induction false} Secure()
    ensures Within(TlsSni(), {TLS_CODE}, {TLS_CODE, SNI_CODE})
    ensures Within(TlsWs(), {WSS_CODE, TLS_CODE}, SECURE)
  {
    hide Within;
    var inner: set<nat> := {TLS_CODE, SNI_CODE};
    WithinEq(TLS_CODE, {TLS_CODE}, {TLS_CODE});
    WithinEq(TLS_CODE, {TLS_CODE}, inner);
    WithinEq(SNI_CODE, {SNI_CODE}, inner);
    WithinAnd(Eq(TLS_CODE), Eq(SNI_CODE), {TLS_CODE}, {TLS_CODE}, {SNI_CODE}, inner);
    WithinEither(Eq(TLS_CODE), TlsSni(), {TLS_CODE}, inner);
    WithinEq(WS_CODE, {WS_CODE}, SECURE);
    WithinAnd(Or([Eq(TLS_CODE), TlsSni()]), Eq(WS_CODE), {TLS_CODE}, inner, {WS_CODE}, SECURE);
    WithinEq(WSS_CODE, {WSS_CODE, TLS_CODE}, SECURE);
    WithinWider(TlsBeforeWs(), {TLS_CODE}, {WSS_CODE, TLS_CODE}, SECURE);
    WithinEither(Eq(WSS_CODE), TlsBeforeWs(), {WSS_CODE, TLS_CODE}, SECURE);
  }

  /** The web socket patterns over one TCP pattern. */
  lemma {:induction false} Socketed(host: Pattern)
    requires Within(host, HOSTS, STREAMED)
    ensures Within(Over(host, WS_CODE), HOSTS, WEBBED) && Within(Wss(host), HOSTS, WEBBED)
    ensures Within(WebSockets(host), HOSTS, WEBBED)
  {
    hide Within, TlsWs;
    Secure();
    WithinOver(host, WS_CODE, STREAMED);
    WithinMore(Over(host, WS_CODE), HOSTS, STREAMED + {WS_CODE}, WEBBED);
    WithinMore(TlsWs(), {WSS_CODE, TLS_CODE}, SECURE, WEBBED);
    WithinAnd(host, TlsWs(), HOSTS, STREAMED, {WSS_CODE, TLS_CODE}, WEBBED);
    WithinEither(Over(host, WS_CODE), Wss(host), HOSTS, WEBBED);
  }

  lemma {:induction false} Reliables()
    ensures Within(Over(Udp(), UTP_CODE), HOSTS, PACKETS + {UTP_CODE})
    ensures Within(Reliable(), HOSTS, RELIABLE_CODES)
    ensures Within(Over(Reliable(), IPFS_CODE), HOSTS, RELIABLE_CODES + {IPFS_CODE})
  {
    hide Within, Dns, Ip, WebSockets;
    Carried(TCP_CODE);
    Carried(UDP_CODE);
    OverUdp(QUIC_CODE);
    Socketed(Tcp());
    WithinOver(Udp(), UTP_CODE, PACKETS);
    WithinMore(Tcp(), HOSTS, STREAMED, RELIABLE_CODES);
    WithinMore(Over(Udp(), UTP_CODE), HOSTS, PACKETS + {UTP_CODE}, RELIABLE_CODES);
    WithinMore(Quic(), HOSTS, PACKETS + {QUIC_CODE}, RELIABLE_CODES);
    WithinMore(WebSockets(Tcp()), HOSTS, WEBBED, RELIABLE_CODES);
    ReliableParts();
    WithinOver(Reliable(), IPFS_CODE, RELIABLE_CODES);
  }

  lemma {:induction false} ReliableParts()
    requires Within(Tcp(), HOSTS, RELIABLE_CODES) && Within(Over(Udp(), UTP_CODE), HOSTS, RELIABLE_CODES)
    requires Within(Quic(), HOSTS, RELIABLE_CODES) && Within(WebSockets(Tcp()), HOSTS, RELIABLE_CODES)
    ensures Within(Reliable(), HOSTS, RELIABLE_CODES)
  {
    hide Within, Tcp, Udp, Over, Quic, WebSockets;
    WithinOr([Tcp(), Over(Udp(), UTP_CODE), Quic(), WebSockets(Tcp())], HOSTS, RELIABLE_CODES);
  }

  lemma {:induction false} Webs(code: nat)
    requires code !in STREAMED
    ensures Within(Web(code), HOSTS, STREAMED + {code})
  {
    hide Within, Dns, Ip;
    var all := STREAMED + {code};
    Hosts();
    Carried(TCP_CODE);
    WithinOver(Tcp(), code, STREAMED);
    WithinOver(Ip(), code, HOSTS);
    WithinOver(Dns(), code, HOSTS);
    WithinMore(Over(Ip(), code), HOSTS, HOSTS + {code}, all);
    WithinMore(Over(Dns(), code), HOSTS, HOSTS + {code}, all);
    hide Over, Tcp;
    WithinOr([Over(Tcp(), code), Over(Ip(), code), Over(Dns(), code)], HOSTS, all);
  }

  lemma {:induction false} IsChecked(p: Pattern, firsts: set<nat>, letters: set<nat>)
    requires Within(p, firsts, letters)
    ensures Checked(p)
  {
  }

  lemma {:induction false} WebRtcDirects()
    ensures Checked(Or([Over(Web(HTTP_CODE), WEBRTC_DIRECT_CODE), Over(Web(HTTPS_CODE), WEBRTC_DIRECT_CODE)]))
  {
    hide Checked, Within, Web, Over;
    var all := STREAMED + {HTTP_CODE, HTTPS_CODE, WEBRTC_DIRECT_CODE};
    Webs(HTTP_CODE);
    Webs(HTTPS_CODE);
    var plain, secure := Over(Web(HTTP_CODE), WEBRTC_DIRECT_CODE), Over(Web(HTTPS_CODE), WEBRTC_DIRECT_CODE);
    WithinOver(Web(HTTP_CODE), WEBRTC_DIRECT_CODE, STREAMED + {HTTP_CODE});
    WithinOver(Web(HTTPS_CODE), WEBRTC_DIRECT_CODE, STREAMED + {HTTPS_CODE});
    WithinMore(plain, HOSTS, STREAMED + {HTTP_CODE} + {WEBRTC_DIRECT_CODE}, all);
    WithinMore(secure, HOSTS, STREAMED + {HTTPS_CODE} + {WEBRTC_DIRECT_CODE}, all);
    WithinEither(plain, secure, HOSTS, all);
    IsChecked(Or([plain, secure]), HOSTS, all);
  }

  /** An IP version over a transport, and a code over that. */
  lemma {:induction false} IpOnly(ip: nat, transport: nat, code: nat)
    requires ip in {IP4_CODE, IP6_CODE} && transport !in HOSTS && code !in HOSTS && code != transport
    ensures Checked(Over(Eq(ip), transport)) && Checked(Over(Over(Eq(ip), transport), code))
  {
    hide Checked, Within, Over;
    Hosts();
    WithinOver(Eq(ip), transport, HOSTS);
    WithinOver(Over(Eq(ip), transport), code, HOSTS + {transport});
    IsChecked(Over(Eq(ip), transport), HOSTS, HOSTS + {transport});
    IsChecked(Over(Over(Eq(ip), transport), code), HOSTS, HOSTS + {transport} + {code});
  }

  lemma {:induction false} EqIsChecked(code: nat)
    ensures Checked(Eq(code))
  {
  }

  /** The hosts, and a transport over each. */
  lemma {:induction false} CarriedIsChecked(code: nat)
    requires code !in HOSTS
    ensures Checked(Dns()) && Checked(Ip()) && Checked(Or([Dns(), Ip()]))
    ensures Checked(Over(Dns(), code)) && Checked(Over(Ip(), code))
    ensures Checked(Or([Over(Dns(), code), Over(Ip(), code)]))
  {
    hide Checked, Within, Over, Dns, Ip;
    Hosts();
    Carried(code);
    WithinEither(Dns(), Ip(), HOSTS, HOSTS);
    IsChecked(Dns(), HOSTS, HOSTS);
    IsChecked(Ip(), HOSTS, HOSTS);
    IsChecked(Or([Dns(), Ip()]), HOSTS, HOSTS);
    IsChecked(Over(Dns(), code), HOSTS, HOSTS + {code});
    IsChecked(Over(Ip(), code), HOSTS, HOSTS + {code});
    IsChecked(Or([Over(Dns(), code), Over(Ip(), code)]), HOSTS, HOSTS + {code});
  }

  lemma {:induction false} UdpIsChecked(code: nat)
    requires code !in PACKETS
    ensures Checked(Over(UdpDns(), code)) && Checked(Over(UdpIp(), code))
    ensures Checked(Or([Over(UdpDns(), code), Over(UdpIp(), code)]))
  {
    hide Checked, Within, Over, UdpDns, UdpIp;
    OverUdp(code);
    IsChecked(Over(UdpDns(), code), HOSTS, PACKETS + {code});
    IsChecked(Over(UdpIp(), code), HOSTS, PACKETS + {code});
    IsChecked(Or([Over(UdpDns(), code), Over(UdpIp(), code)]), HOSTS, PACKETS + {code});
  }

  lemma {:induction false} SocketedIsChecked(host: Pattern)
    requires host in {Over(Dns(), TCP_CODE), Over(Ip(), TCP_CODE), Tcp()}
    ensures Checked(Over(host, WS_CODE)) && Checked(Wss(host)) && Checked(WebSockets(host))
  {
    hide Checked, Within, Over, Dns, Ip, Wss, WebSockets;
    Carried(TCP_CODE);
    Socketed(host);
    IsChecked(Over(host, WS_CODE), HOSTS, WEBBED);
    IsChecked(Wss(host), HOSTS, WEBBED);
    IsChecked(WebSockets(host), HOSTS, WEBBED);
  }

  lemma {:induction false} RestIsChecked()
    ensures Checked(Over(Udp(), UTP_CODE)) && Checked(Reliable()) && Checked(Over(Reliable(), IPFS_CODE))
    ensures Checked(Or([Udp()])) && Checked(Over(Tcp(), ONION3_CODE))
    ensures Checked(TlsSni()) && Checked(TlsWs())
  {
    hide Checked, Within, Over, Dns, Ip, Reliable, TlsSni, TlsWs;
    Reliables();
    Secure();
    Carried(TCP_CODE);
    Carried(UDP_CODE);
    WithinOr([Udp()], HOSTS, PACKETS);
    WithinOver(Tcp(), ONION3_CODE, STREAMED);
    IsChecked(Over(Udp(), UTP_CODE), HOSTS, PACKETS + {UTP_CODE});
    IsChecked(Reliable(), HOSTS, RELIABLE_CODES);
    IsChecked(Over(Reliable(), IPFS_CODE), HOSTS, RELIABLE_CODES + {IPFS_CODE});
    IsChecked(Or([Udp()]), HOSTS, PACKETS);
    IsChecked(Over(Tcp(), ONION3_CODE), HOSTS, STREAMED + {ONION3_CODE});
    IsChecked(TlsSni(), {TLS_CODE}, {TLS_CODE, SNI_CODE});
    IsChecked(TlsWs(), {WSS_CODE, TLS_CODE}, SECURE);
  }

  lemma {:induction false} WebIsChecked(code: nat)
    requires code !in STREAMED
    ensures Checked(Web(code))
  {
    hide Checked, Within, Web;
    Webs(code);
    IsChecked(Web(code), HOSTS, STREAMED + {code});
  }

  lemma {:induction false} ShippedAreChecked(name: Name)
    ensures Checked(Shipped(name))
  {
    hide Checked, Over, Dns, Ip, WebSockets, Wss, Web, Reliable, TlsSni, TlsWs;
    match name
    case DNS | IP | DNS_OR_IP | TCP_DNS | TCP_IP | TCP => CarriedIsChecked(TCP_CODE);
    case UDP_DNS | UDP_IP | UDP => CarriedIsChecked(UDP_CODE);
    case UNRELIABLE | UTP | RELIABLE | IPFS | TLS_SNI | TLS_WS | TCP_ONION3 => RestIsChecked();
    case QUIC_IP | QUIC_DNS | QUIC => UdpIsChecked(QUIC_CODE);
    case QUIC_V1_IP | QUIC_V1_DNS | QUIC_V1 => UdpIsChecked(QUIC_V1_CODE);
    case TCP_IP4 => IpOnly(IP4_CODE, TCP_CODE, WS_CODE);
    case TCP_IP6 => IpOnly(IP6_CODE, TCP_CODE, WS_CODE);
    case UDP_IP4 | QUIC_V1_IP4 => IpOnly(IP4_CODE, UDP_CODE, QUIC_V1_CODE);
    case WS_DNS | WSS_DNS | WEBSOCKETS_DNS => SocketedIsChecked(Over(Dns(), TCP_CODE));
    case WS_IP | WSS_IP | WEBSOCKETS_IP => SocketedIsChecked(Over(Ip(), TCP_CODE));
    case WS | WSS | WEBSOCKETS => SocketedIsChecked(Tcp());
    case HTTP => WebIsChecked(HTTP_CODE);
    case HTTPS => WebIsChecked(HTTPS_CODE);
    case WEBRTC_DIRECT => WebRtcDirects();
    case _ => EqIsChecked(Shipped(name).value);
  }

  /** Every shipped pattern passes the check, so `match` and `matchPartial` decide it exactly, although
      `tls` is a prefix of `tls sni` and `tcp` one of `tcp ws`. */
  lemma {:induction false} ShippedAreExact(name: Name, protos: seq<nat>)
    ensures Matches(Shipped(name), protos) <==> InLang(Shipped(name), protos)
    ensures MatchesPartial(Shipped(name), protos) <==>
            exists k :: 0 <= k <= |protos| && InLang(Shipped(name), protos[..k])
  {
    hide Shipped, Checked, InLang;
    ShippedAreChecked(name);
    CheckedIsSafe(Shipped(name));
    MatchDecides(Shipped(name), protos);
  }
}
