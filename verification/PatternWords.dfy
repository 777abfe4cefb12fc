/** The protocol lists that the patterns of `libp2p/multiaddress.nim` match, written out. */
module PatternWords {
  import opened Multicodec
  import opened Patterns
  import opened ShippedPatterns

  /** One of `firsts`, then exactly `rest`. */
  datatype Form = Form(firsts: set<nat>, rest: seq<nat>)

  predicate Fits(f: Form, w: seq<nat>) {
    w != [] && w[0] in f.firsts && w[1..] == f.rest
  }

  predicate SpelledBy(forms: seq<Form>, w: seq<nat>) {
    exists i :: 0 <= i < |forms| && Fits(forms[i], w)
  }

  const DNS_HOSTS: set<nat> := {DNS_CODE, DNS4_CODE, DNS6_CODE, DNSADDR_CODE}
  const IP_HOSTS: set<nat> := {IP4_CODE, IP6_CODE}

  /** Over any DNS name or IP address. */
  function Hosted(rest: seq<nat>): seq<Form> {
    [Form(DNS_HOSTS, rest), Form(IP_HOSTS, rest)]
  }

  function Exactly(code: nat): seq<Form> {
    [Form({code}, [])]
  }

  /** The lists each pattern matches. */
  function Words(name: Name): seq<Form> {
    match name
    case DNSANY => Exactly(DNS_CODE)
    case DNS4 => Exactly(DNS4_CODE)
    case DNS6 => Exactly(DNS6_CODE)
    case DNSADDR => Exactly(DNSADDR_CODE)
    case IP4 => Exactly(IP4_CODE)
    case IP6 => Exactly(IP6_CODE)
    case DNS => [Form(DNS_HOSTS, [])]
    case IP => [Form(IP_HOSTS, [])]
    case DNS_OR_IP => Hosted([])
    case TCP_DNS => [Form(DNS_HOSTS, [TCP_CODE])]
    case TCP_IP => [Form(IP_HOSTS, [TCP_CODE])]
    case TCP => Hosted([TCP_CODE])
    case UDP_DNS => [Form(DNS_HOSTS, [UDP_CODE])]
    case UDP_IP => [Form(IP_HOSTS, [UDP_CODE])]
    case UDP => Hosted([UDP_CODE])
    case UTP => Hosted([UDP_CODE, UTP_CODE])
    case QUIC_IP => [Form(IP_HOSTS, [UDP_CODE, QUIC_CODE])]
    case QUIC_DNS => [Form(DNS_HOSTS, [UDP_CODE, QUIC_CODE])]
    case QUIC => Hosted([UDP_CODE, QUIC_CODE])
    case QUIC_V1_IP => [Form(IP_HOSTS, [UDP_CODE, QUIC_V1_CODE])]
    case QUIC_V1_DNS => [Form(DNS_HOSTS, [UDP_CODE, QUIC_V1_CODE])]
    case QUIC_V1 => Hosted([UDP_CODE, QUIC_V1_CODE])
    case TCP_IP4 => [Form({IP4_CODE}, [TCP_CODE])]
    case TCP_IP6 => [Form({IP6_CODE}, [TCP_CODE])]
    case UDP_IP4 => [Form({IP4_CODE}, [UDP_CODE])]
    case QUIC_V1_IP4 => [Form({IP4_CODE}, [UDP_CODE, QUIC_V1_CODE])]
    case UNIX => Exactly(UNIX_CODE)
    case WS_DNS => [Form(DNS_HOSTS, [TCP_CODE, WS_CODE])]
    case WS_IP => [Form(IP_HOSTS, [TCP_CODE, WS_CODE])]
    case WS => Hosted([TCP_CODE, WS_CODE])
    case TLS => Exactly(TLS_CODE)
    case SNI => Exactly(SNI_CODE)
    case TLS_SNI => [Form({TLS_CODE}, [SNI_CODE])]
    case TLS_WS => [Form({WSS_CODE}, []), Form({TLS_CODE}, [WS_CODE]), Form({TLS_CODE}, [SNI_CODE, WS_CODE])]
    case WSS_DNS => Secured(DNS_HOSTS)
    case WSS_IP => Secured(IP_HOSTS)
    case WSS => SecuredHosts()
    case WEBSOCKETS_DNS => [Form(DNS_HOSTS, [TCP_CODE, WS_CODE])] + Secured(DNS_HOSTS)
    case WEBSOCKETS_IP => [Form(IP_HOSTS, [TCP_CODE, WS_CODE])] + Secured(IP_HOSTS)
    case WEBSOCKETS => Hosted([TCP_CODE, WS_CODE]) + SecuredHosts()
    case ONION3 => Exactly(ONION3_CODE)
    case TCP_ONION3 => Hosted([TCP_CODE, ONION3_CODE])
    case UNRELIABLE => Hosted([UDP_CODE])
    case RELIABLE =>
      Hosted([TCP_CODE]) + Hosted([UDP_CODE, UTP_CODE]) + Hosted([UDP_CODE, QUIC_CODE]) +
      (Hosted([TCP_CODE, WS_CODE]) + SecuredHosts())
    case P2P => Exactly(P2P_CODE)
    case IPFS =>
      var last := [IPFS_CODE];
      Hosted([TCP_CODE] + last) + Hosted([UDP_CODE, UTP_CODE] + last) + Hosted([UDP_CODE, QUIC_CODE] + last) +
      (Hosted([TCP_CODE, WS_CODE] + last) +
       (Hosted([TCP_CODE, WSS_CODE] + last) + Hosted([TCP_CODE, TLS_CODE, WS_CODE] + last) +
        Hosted([TCP_CODE, TLS_CODE, SNI_CODE, WS_CODE] + last)))
    case HTTP => Webbed([HTTP_CODE])
    case HTTPS => Webbed([HTTPS_CODE])
    case WEBRTC_DIRECT => Webbed([HTTP_CODE, WEBRTC_DIRECT_CODE]) + Webbed([HTTPS_CODE, WEBRTC_DIRECT_CODE])
    case CIRCUIT_RELAY => Exactly(CIRCUIT_CODE)
    case MEMORY => Exactly(MEMORY_CODE)
  }

  /** Secure web sockets: `wss`, `tls ws` or `tls sni ws` over TCP. */
  function Secured(hosts: set<nat>): seq<Form> {
    [Form(hosts, [TCP_CODE, WSS_CODE]), Form(hosts, [TCP_CODE, TLS_CODE, WS_CODE]),
     Form(hosts, [TCP_CODE, TLS_CODE, SNI_CODE, WS_CODE])]
  }

  function SecuredHosts(): seq<Form> {
    Hosted([TCP_CODE, WSS_CODE]) + Hosted([TCP_CODE, TLS_CODE, WS_CODE]) +
    Hosted([TCP_CODE, TLS_CODE, SNI_CODE, WS_CODE])
  }

  /** Over TCP or right over the host. */
  function Webbed(rest: seq<nat>): seq<Form> {
    Hosted([TCP_CODE] + rest) + Hosted(rest)
  }

  ghost predicate Denotes(pat: Pattern, forms: seq<Form>) {
    forall w :: InLang(pat, w) <==> SpelledBy(forms, w)
  }

  /** The forms with more behind them. */
  function Behind(forms: seq<Form>, t: seq<nat>): (r: seq<Form>)
    ensures |r| == |forms| && forall i :: 0 <= i < |r| ==> r[i] == Form(forms[i].firsts, forms[i].rest + t)
  {
    seq(|forms|, i requires 0 <= i < |forms| => Form(forms[i].firsts, forms[i].rest + t))
  }

  lemma {:induction false} OneForm(f: Form, w: seq<nat>)
    ensures SpelledBy([f], w) <==> Fits(f, w)
  {
    if Fits(f, w) {
      assert Fits([f][0], w);
    }
  }

  lemma {:induction false} BothForms(f: seq<Form>, g: seq<Form>, w: seq<nat>)
    ensures SpelledBy(f + g, w) <==> SpelledBy(f, w) || SpelledBy(g, w)
  {
    hide Fits;
    if SpelledBy(f, w) {
      var i :| 0 <= i < |f| && Fits(f[i], w);
      assert Fits((f + g)[i], w);
    }
    if SpelledBy(g, w) {
      var i :| 0 <= i < |g| && Fits(g[i], w);
      assert Fits((f + g)[|f| + i], w);
    }
  }

  lemma {:induction false} FitsBehind(f: Form, t: seq<nat>, w: seq<nat>)
    ensures Fits(Form(f.firsts, f.rest + t), w) <==>
            |t| <= |w| && w[|w| - |t|..] == t && Fits(f, w[..|w| - |t|])
  {
    if Fits(Form(f.firsts, f.rest + t), w) {
      assert w[|w| - |t|..] == w[1..][|f.rest|..] == t;
      assert w[..|w| - |t|][1..] == w[1..][..|f.rest|] == f.rest;
    }
    if |t| <= |w| && w[|w| - |t|..] == t && Fits(f, w[..|w| - |t|]) {
      assert w[1..] == w[..|w| - |t|][1..] + w[|w| - |t|..];
    }
  }

  lemma {:induction false} SpelledBehind(forms: seq<Form>, t: seq<nat>, w: seq<nat>)
    ensures SpelledBy(Behind(forms, t), w) <==>
            |t| <= |w| && w[|w| - |t|..] == t && SpelledBy(forms, w[..|w| - |t|])
  {
    hide Fits;
    var all := Behind(forms, t);
    forall i | 0 <= i < |forms|
      ensures Fits(all[i], w) <==> |t| <= |w| && w[|w| - |t|..] == t && Fits(forms[i], w[..|w| - |t|])
    {
      FitsBehind(forms[i], t, w);
    }
  }

  lemma {:induction false} DenotesEq(code: nat)
    ensures Denotes(Eq(code), Exactly(code))
  {
    forall w
      ensures InLang(Eq(code), w) <==> SpelledBy(Exactly(code), w)
    {
      OneForm(Form({code}, []), w);
      if w != [] {
        assert w == [w[0]] + w[1..];
      }
    }
  }

  lemma {:induction false} DenotesOne(p: Pattern, f: seq<Form>)
    requires Denotes(p, f)
    ensures Denotes(Or([p]), f)
  {
    hide SpelledBy;
    forall w
      ensures InLang(Or([p]), w) <==> SpelledBy(f, w)
    {
      if InLang(p, w) {
        assert InLang([p][0], w);
      }
    }
  }

  /** One more alternative. */
  lemma {:induction false} DenotesOr(args: seq<Pattern>, f: seq<Form>, p: Pattern, g: seq<Form>)
    requires Denotes(Or(args), f) && Denotes(p, g)
    ensures Denotes(Or(args + [p]), f + g)
  {
    hide SpelledBy;
    var more := args + [p];
    forall w
      ensures InLang(Or(more), w) <==> SpelledBy(f + g, w)
    {
      BothForms(f, g, w);
      OrMore(args, p, w);
    }
  }

  lemma {:induction false} OrMore(args: seq<Pattern>, p: Pattern, w: seq<nat>)
    ensures InLang(Or(args + [p]), w) <==> InLang(Or(args), w) || InLang(p, w)
  {
    var more := args + [p];
    if InLang(Or(args), w) {
      var i :| 0 <= i < |args| && InLang(args[i], w);
      assert InLang(more[i], w);
    }
    if InLang(p, w) {
      assert InLang(more[|args|], w);
    }
    if InLang(Or(more), w) {
      var i :| 0 <= i < |more| && InLang(more[i], w);
      assert i < |args| ==> InLang(args[i], w);
    }
  }

  lemma {:induction false} DenotesEither(p: Pattern, f: seq<Form>, q: Pattern, g: seq<Form>)
    requires Denotes(p, f) && Denotes(q, g)
    ensures Denotes(Or([p, q]), f + g)
  {
    hide Denotes;
    DenotesOne(p, f);
    DenotesOr([p], f, q, g);
    assert [p] + [q] == [p, q];
  }

  lemma {:induction false} AndLang(p: Pattern, q: Pattern, w: seq<nat>)
    ensures InLang(And([p, q]), w) <==> exists k :: 0 <= k <= |w| && InLang(p, w[..k]) && InLang(q, w[k..])
  {
    var pat := And([p, q]);
    forall u
      ensures InSeq(pat, u, 1) <==> InLang(q, u)
    {
      assert u[..|u|] == u && u[|u|..] == [];
      if InLang(q, u) {
        assert InSeq(pat, u[|u|..], 2);
      }
      if InSeq(pat, u, 1) {
        var k :| 0 <= k <= |u| && InLang(q, u[..k]) && InSeq(pat, u[k..], 2);
        assert u[..k] == u;
      }
    }
    assert InLang(pat, w) <==> InSeq(pat, w, 0);
  }

  /** A code behind a pattern. */
  lemma {:induction false} DenotesOver(p: Pattern, f: seq<Form>, code: nat)
    requires Denotes(p, f)
    ensures Denotes(Over(p, code), Behind(f, [code]))
  {
    hide SpelledBy, InLang;
    forall w
      ensures InLang(Over(p, code), w) <==> SpelledBy(Behind(f, [code]), w)
    {
      AndLang(p, Eq(code), w);
      SpelledBehind(f, [code], w);
      forall u
        ensures InLang(Eq(code), u) <==> u == [code]
      {
        EqLang(code, u);
      }
      if w != [] {
        assert InLang(p, w[..|w| - 1]) <==> SpelledBy(f, w[..|w| - 1]);
      }
    }
  }

  lemma {:induction false} EqLang(code: nat, u: seq<nat>)
    ensures InLang(Eq(code), u) <==> u == [code]
  {
  }

  /** Secure web sockets over a pattern. */
  lemma {:induction false} DenotesWss(host: Pattern, f: seq<Form>)
    requires Denotes(host, f)
    ensures Denotes(Wss(host),
                    Behind(f, [WSS_CODE]) + Behind(f, [TLS_CODE, WS_CODE]) + Behind(f, [TLS_CODE, SNI_CODE, WS_CODE]))
  {
    hide SpelledBy, InLang, TlsWs;
    var a, b, c := [WSS_CODE], [TLS_CODE, WS_CODE], [TLS_CODE, SNI_CODE, WS_CODE];
    forall w
      ensures InLang(Wss(host), w) <==> SpelledBy(Behind(f, a) + Behind(f, b) + Behind(f, c), w)
    {
      AndLang(host, TlsWs(), w);
      forall u
        ensures InLang(TlsWs(), u) <==> u == a || u == b || u == c
      {
        TlsWsLang(u);
      }
      BothForms(Behind(f, a) + Behind(f, b), Behind(f, c), w);
      BothForms(Behind(f, a), Behind(f, b), w);
      SpelledBehind(f, a, w);
      SpelledBehind(f, b, w);
      SpelledBehind(f, c, w);
      EndsIn(host, f, a, w);
      EndsIn(host, f, b, w);
      EndsIn(host, f, c, w);
    }
  }

  /** A word of the pattern in front of a fixed end. */
  lemma {:induction false} EndsIn(host: Pattern, f: seq<Form>, t: seq<nat>, w: seq<nat>)
    requires Denotes(host, f)
    ensures (exists k :: 0 <= k <= |w| && InLang(host, w[..k]) && w[k..] == t) <==>
            |t| <= |w| && w[|w| - |t|..] == t && SpelledBy(f, w[..|w| - |t|])
  {
    hide SpelledBy, InLang;
    if |t| <= |w| {
      assert InLang(host, w[..|w| - |t|]) <==> SpelledBy(f, w[..|w| - |t|]);
    }
  }

  lemma {:induction false} TlsWsLang(u: seq<nat>)
    ensures InLang(TlsWs(), u) <==>
            u == [WSS_CODE] || u == [TLS_CODE, WS_CODE] || u == [TLS_CODE, SNI_CODE, WS_CODE]
  {
    hide SpelledBy, InLang, Denotes;
    TlsWsDenotes();
    assert InLang(TlsWs(), u) <==> SpelledBy(Words(TLS_WS), u) by {
      DenotesAt(TlsWs(), Words(TLS_WS), u);
    }
    var a, b, c := Form({WSS_CODE}, []), Form({TLS_CODE}, [WS_CODE]), Form({TLS_CODE}, [SNI_CODE, WS_CODE]);
    assert Words(TLS_WS) == [a] + [b] + [c];
    BothForms([a] + [b], [c], u);
    BothForms([a], [b], u);
    OneForm(a, u);
    OneForm(b, u);
    OneForm(c, u);
    if u != [] {
      assert u == [u[0]] + u[1..];
    }
  }

  lemma {:induction false} DenotesAt(p: Pattern, f: seq<Form>, w: seq<nat>)
    requires Denotes(p, f)
    ensures InLang(p, w) <==> SpelledBy(f, w)
  {
  }

  lemma {:induction false} TlsWsDenotes()
    ensures Denotes(TlsSni(), Words(TLS_SNI)) && Denotes(TlsWs(), Words(TLS_WS))
  {
    hide Denotes;
    DenotesEq(TLS_CODE);
    DenotesOver(Eq(TLS_CODE), Exactly(TLS_CODE), SNI_CODE);
    OneBehind({TLS_CODE}, [], [SNI_CODE], [SNI_CODE]);
    DenotesEither(Eq(TLS_CODE), Exactly(TLS_CODE), TlsSni(), Words(TLS_SNI));
    var inner := Exactly(TLS_CODE) + Words(TLS_SNI);
    DenotesOver(Or([Eq(TLS_CODE), TlsSni()]), inner, WS_CODE);
    BehindBoth(Exactly(TLS_CODE), Words(TLS_SNI), [WS_CODE]);
    OneBehind({TLS_CODE}, [], [WS_CODE], [WS_CODE]);
    OneBehind({TLS_CODE}, [SNI_CODE], [WS_CODE], [SNI_CODE, WS_CODE]);
    DenotesEq(WSS_CODE);
    DenotesEither(Eq(WSS_CODE), Exactly(WSS_CODE), TlsBeforeWs(), Behind(inner, [WS_CODE]));
    assert Exactly(WSS_CODE) + Behind(inner, [WS_CODE]) == Words(TLS_WS);
  }

  /** The hosts. */
  lemma {:induction false} HostsDenote()
    ensures Denotes(Dns(), [Form(DNS_HOSTS, [])]) && Denotes(Ip(), [Form(IP_HOSTS, [])])
  {
    forall w
      ensures InLang(Dns(), w) <==> SpelledBy([Form(DNS_HOSTS, [])], w)
      ensures InLang(Ip(), w) <==> SpelledBy([Form(IP_HOSTS, [])], w)
    {
      DnsLang(w);
      IpLang(w);
      OneForm(Form(DNS_HOSTS, []), w);
      OneForm(Form(IP_HOSTS, []), w);
    }
  }

  lemma {:induction false} DnsLang(w: seq<nat>)
    ensures InLang(Dns(), w) <==> w != [] && w[0] in DNS_HOSTS && w[1..] == []
  {
    var args := [Eq(DNS_CODE), Eq(DNS4_CODE), Eq(DNS6_CODE), Eq(DNSADDR_CODE)];
    assert InLang(Dns(), w) <==>
           InLang(args[0], w) || InLang(args[1], w) || InLang(args[2], w) || InLang(args[3], w);
    if w != [] {
      assert w == [w[0]] + w[1..];
    }
  }

  lemma {:induction false} IpLang(w: seq<nat>)
    ensures InLang(Ip(), w) <==> w != [] && w[0] in IP_HOSTS && w[1..] == []
  {
    var args := [Eq(IP4_CODE), Eq(IP6_CODE)];
    assert InLang(Ip(), w) <==> InLang(args[0], w) || InLang(args[1], w);
    if w != [] {
      assert w == [w[0]] + w[1..];
    }
  }

  lemma {:induction false} OneBehind(hosts: set<nat>, rest: seq<nat>, t: seq<nat>, both: seq<nat>)
    requires rest + t == both
    ensures Behind([Form(hosts, rest)], t) == [Form(hosts, both)]
  {
  }

  lemma {:induction false} HostedBehind(rest: seq<nat>, t: seq<nat>)
    ensures Behind(Hosted(rest), t) == Hosted(rest + t)
  {
  }

  /** A code over the hosts. */
  lemma {:induction false} CarriedDenotes(code: nat)
    ensures Denotes(Over(Dns(), code), [Form(DNS_HOSTS, [code])]) && Denotes(Over(Ip(), code), [Form(IP_HOSTS, [code])])
    ensures Denotes(Or([Over(Dns(), code), Over(Ip(), code)]), Hosted([code]))
  {
    hide Denotes, Dns, Ip, Over;
    HostsDenote();
    DenotesOver(Dns(), [Form(DNS_HOSTS, [])], code);
    DenotesOver(Ip(), [Form(IP_HOSTS, [])], code);
    OneBehind(DNS_HOSTS, [], [code], [code]);
    OneBehind(IP_HOSTS, [], [code], [code]);
    DenotesEither(Over(Dns(), code), [Form(DNS_HOSTS, [code])], Over(Ip(), code), [Form(IP_HOSTS, [code])]);
    assert [Form(DNS_HOSTS, [code])] + [Form(IP_HOSTS, [code])] == Hosted([code]);
  }

  /** A code over a pattern that is one form. */
  lemma {:induction false} OneOver(p: Pattern, hosts: set<nat>, rest: seq<nat>, code: nat)
    requires Denotes(p, [Form(hosts, rest)])
    ensures Denotes(Over(p, code), [Form(hosts, rest + [code])])
  {
    hide Denotes, Over;
    DenotesOver(p, [Form(hosts, rest)], code);
    assert Behind([Form(hosts, rest)], [code]) == [Form(hosts, rest + [code])];
  }

  lemma {:induction false} HostedOver(p: Pattern, rest: seq<nat>, code: nat)
    requires Denotes(p, Hosted(rest))
    ensures Denotes(Over(p, code), Hosted(rest + [code]))
  {
    hide Denotes, Over;
    DenotesOver(p, Hosted(rest), code);
    HostedBehind(rest, [code]);
  }

  /** A code over UDP. */
  lemma {:induction false} OverUdpDenotes(code: nat)
    ensures Denotes(Over(UdpDns(), code), [Form(DNS_HOSTS, [UDP_CODE, code])])
    ensures Denotes(Over(UdpIp(), code), [Form(IP_HOSTS, [UDP_CODE, code])])
    ensures Denotes(Or([Over(UdpDns(), code), Over(UdpIp(), code)]), Hosted([UDP_CODE, code]))
  {
    hide Denotes, Dns, Ip, Over;
    CarriedDenotes(UDP_CODE);
    OneOver(UdpDns(), DNS_HOSTS, [UDP_CODE], code);
    OneOver(UdpIp(), IP_HOSTS, [UDP_CODE], code);
    assert [UDP_CODE] + [code] == [UDP_CODE, code];
    var x, y := [Form(DNS_HOSTS, [UDP_CODE, code])], [Form(IP_HOSTS, [UDP_CODE, code])];
    DenotesEither(Over(UdpDns(), code), x, Over(UdpIp(), code), y);
    assert x + y == Hosted([UDP_CODE, code]);
  }

  /** The web socket patterns over TCP, by one kind of host. */
  lemma {:induction false} SocketsDenote(host: Pattern, hosts: set<nat>)
    requires Denotes(host, [Form(hosts, [TCP_CODE])])
    ensures Denotes(Over(host, WS_CODE), [Form(hosts, [TCP_CODE, WS_CODE])])
    ensures Denotes(Wss(host), Secured(hosts))
    ensures Denotes(WebSockets(host), [Form(hosts, [TCP_CODE, WS_CODE])] + Secured(hosts))
  {
    hide Denotes, Wss, Over;
    var f := [Form(hosts, [TCP_CODE])];
    OneOver(host, hosts, [TCP_CODE], WS_CODE);
    assert [TCP_CODE] + [WS_CODE] == [TCP_CODE, WS_CODE];
    DenotesWss(host, f);
    OneBehind(hosts, [TCP_CODE], [WSS_CODE], [TCP_CODE, WSS_CODE]);
    OneBehind(hosts, [TCP_CODE], [TLS_CODE, WS_CODE], [TCP_CODE, TLS_CODE, WS_CODE]);
    OneBehind(hosts, [TCP_CODE], [TLS_CODE, SNI_CODE, WS_CODE], [TCP_CODE, TLS_CODE, SNI_CODE, WS_CODE]);
    assert Behind(f, [WSS_CODE]) + Behind(f, [TLS_CODE, WS_CODE]) + Behind(f, [TLS_CODE, SNI_CODE, WS_CODE]) ==
           Secured(hosts);
    DenotesEither(Over(host, WS_CODE), [Form(hosts, [TCP_CODE, WS_CODE])], Wss(host), Secured(hosts));
  }

  lemma {:induction false} AllSocketsDenote()
    ensures Denotes(Tcp(), Hosted([TCP_CODE]))
    ensures Denotes(Over(Tcp(), WS_CODE), Hosted([TCP_CODE, WS_CODE]))
    ensures Denotes(Wss(Tcp()), SecuredHosts())
    ensures Denotes(WebSockets(Tcp()), Hosted([TCP_CODE, WS_CODE]) + SecuredHosts())
  {
    hide Denotes, Wss, Over;
    CarriedDenotes(TCP_CODE);
    hide Tcp;
    var f := Hosted([TCP_CODE]);
    HostedOver(Tcp(), [TCP_CODE], WS_CODE);
    assert [TCP_CODE] + [WS_CODE] == [TCP_CODE, WS_CODE];
    DenotesWss(Tcp(), f);
    HostedBehind([TCP_CODE], [WSS_CODE]);
    HostedBehind([TCP_CODE], [TLS_CODE, WS_CODE]);
    HostedBehind([TCP_CODE], [TLS_CODE, SNI_CODE, WS_CODE]);
    assert [TCP_CODE] + [WSS_CODE] == [TCP_CODE, WSS_CODE];
    assert [TCP_CODE] + [TLS_CODE, WS_CODE] == [TCP_CODE, TLS_CODE, WS_CODE];
    assert [TCP_CODE] + [TLS_CODE, SNI_CODE, WS_CODE] == [TCP_CODE, TLS_CODE, SNI_CODE, WS_CODE];
    DenotesEither(Over(Tcp(), WS_CODE), Hosted([TCP_CODE, WS_CODE]), Wss(Tcp()), SecuredHosts());
  }

  lemma {:induction false} ReliableDenotes()
    ensures Denotes(Over(Udp(), UTP_CODE), Words(UTP))
    ensures Denotes(Reliable(), Words(RELIABLE))
  {
    hide Denotes, Over, Tcp, WebSockets, SecuredHosts;
    CarriedDenotes(UDP_CODE);
    HostedOver(Udp(), [UDP_CODE], UTP_CODE);
    assert [UDP_CODE] + [UTP_CODE] == [UDP_CODE, UTP_CODE];
    OverUdpDenotes(QUIC_CODE);
    AllSocketsDenote();
    var a, b, c := Hosted([TCP_CODE]), Hosted([UDP_CODE, UTP_CODE]), Hosted([UDP_CODE, QUIC_CODE]);
    var d := Hosted([TCP_CODE, WS_CODE]) + SecuredHosts();
    hide Udp, Quic, Hosted;
    DenotesEither(Tcp(), a, Over(Udp(), UTP_CODE), b);
    DenotesOr([Tcp(), Over(Udp(), UTP_CODE)], a + b, Quic(), c);
    assert [Tcp(), Over(Udp(), UTP_CODE)] + [Quic()] == [Tcp(), Over(Udp(), UTP_CODE), Quic()];
    DenotesOr([Tcp(), Over(Udp(), UTP_CODE), Quic()], a + b + c, WebSockets(Tcp()), d);
    assert [Tcp(), Over(Udp(), UTP_CODE), Quic()] + [WebSockets(Tcp())] ==
           [Tcp(), Over(Udp(), UTP_CODE), Quic(), WebSockets(Tcp())];
  }

  lemma {:induction false} BehindBoth(f: seq<Form>, g: seq<Form>, t: seq<nat>)
    ensures Behind(f + g, t) == Behind(f, t) + Behind(g, t)
  {
  }

  lemma {:induction false} ReliableBehind(t: seq<nat>)
    ensures Behind(Words(RELIABLE), t) ==
            Hosted([TCP_CODE] + t) + Hosted([UDP_CODE, UTP_CODE] + t) + Hosted([UDP_CODE, QUIC_CODE] + t) +
            (Hosted([TCP_CODE, WS_CODE] + t) +
             (Hosted([TCP_CODE, WSS_CODE] + t) + Hosted([TCP_CODE, TLS_CODE, WS_CODE] + t) +
              Hosted([TCP_CODE, TLS_CODE, SNI_CODE, WS_CODE] + t)))
  {
    var a, b, c := [TCP_CODE], [UDP_CODE, UTP_CODE], [UDP_CODE, QUIC_CODE];
    var d, e := [TCP_CODE, WS_CODE], [TCP_CODE, WSS_CODE];
    var f, g := [TCP_CODE, TLS_CODE, WS_CODE], [TCP_CODE, TLS_CODE, SNI_CODE, WS_CODE];
    HostedBehind(a, t);
    HostedBehind(b, t);
    HostedBehind(c, t);
    HostedBehind(d, t);
    HostedBehind(e, t);
    HostedBehind(f, t);
    HostedBehind(g, t);
    hide Hosted, Behind;
    BehindBoth(Hosted(a) + Hosted(b) + Hosted(c), Hosted(d) + SecuredHosts(), t);
    BehindBoth(Hosted(a) + Hosted(b), Hosted(c), t);
    BehindBoth(Hosted(a), Hosted(b), t);
    BehindBoth(Hosted(d), SecuredHosts(), t);
    BehindBoth(Hosted(e) + Hosted(f), Hosted(g), t);
    BehindBoth(Hosted(e), Hosted(f), t);
  }

  lemma {:induction false} IpfsDenotes()
    ensures Denotes(Over(Reliable(), IPFS_CODE), Words(IPFS))
  {
    hide Denotes, Over, Reliable;
    ReliableDenotes();
    DenotesOver(Reliable(), Words(RELIABLE), IPFS_CODE);
    ReliableBehind([IPFS_CODE]);
  }

  lemma {:induction false} WebDenotes(code: nat)
    ensures Denotes(Web(code), Webbed([code]))
  {
    hide Denotes, Over, Dns, Ip, SpelledBy;
    AllSocketsDenote();
    HostedOver(Tcp(), [TCP_CODE], code);
    CarriedDenotes(code);
    var a, b, c := Hosted([TCP_CODE] + [code]), [Form(IP_HOSTS, [code])], [Form(DNS_HOSTS, [code])];
    DenotesEither(Over(Tcp(), code), a, Over(Ip(), code), b);
    DenotesOr([Over(Tcp(), code), Over(Ip(), code)], a + b, Over(Dns(), code), c);
    assert [Over(Tcp(), code), Over(Ip(), code)] + [Over(Dns(), code)] ==
           [Over(Tcp(), code), Over(Ip(), code), Over(Dns(), code)];
    assert c + b == Hosted([code]);
    DenotesSwapped(Web(code), a, b, c);
  }

  /** The order of the forms does not matter. */
  lemma {:induction false} DenotesSwapped(p: Pattern, a: seq<Form>, b: seq<Form>, c: seq<Form>)
    requires Denotes(p, a + b + c)
    ensures Denotes(p, a + (c + b))
  {
    hide SpelledBy, InLang;
    forall w
      ensures SpelledBy(a + b + c, w) <==> SpelledBy(a + (c + b), w)
    {
      BothForms(a + b, c, w);
      BothForms(a, b, w);
      BothForms(a, c + b, w);
      BothForms(c, b, w);
    }
  }

  lemma {:induction false} WebbedBehind(code: nat, w: nat)
    ensures Behind(Webbed([code]), [w]) == Webbed([code, w])
  {
    hide Hosted, Behind;
    BehindBoth(Hosted([TCP_CODE] + [code]), Hosted([code]), [w]);
    HostedBehind([TCP_CODE] + [code], [w]);
    HostedBehind([code], [w]);
    assert [code] + [w] == [code, w] && [TCP_CODE] + [code] + [w] == [TCP_CODE] + [code, w];
  }

  lemma {:induction false} WebRtcDenotes()
    ensures Denotes(Shipped(WEBRTC_DIRECT), Words(WEBRTC_DIRECT))
  {
    hide Denotes, Over, Web;
    WebDenotes(HTTP_CODE);
    WebDenotes(HTTPS_CODE);
    var w := WEBRTC_DIRECT_CODE;
    DenotesOver(Web(HTTP_CODE), Webbed([HTTP_CODE]), w);
    DenotesOver(Web(HTTPS_CODE), Webbed([HTTPS_CODE]), w);
    WebbedBehind(HTTP_CODE, w);
    WebbedBehind(HTTPS_CODE, w);
    DenotesEither(Over(Web(HTTP_CODE), w), Webbed([HTTP_CODE, w]), Over(Web(HTTPS_CODE), w), Webbed([HTTPS_CODE, w]));
  }

  lemma {:induction false} IpOnlyDenotes(ip: nat, transport: nat, code: nat)
    ensures Denotes(Over(Eq(ip), transport), [Form({ip}, [transport])])
    ensures Denotes(Over(Over(Eq(ip), transport), code), [Form({ip}, [transport, code])])
  {
    hide Denotes, Over;
    DenotesEq(ip);
    OneOver(Eq(ip), {ip}, [], transport);
    assert [] + [transport] == [transport] && [transport] + [code] == [transport, code];
    OneOver(Over(Eq(ip), transport), {ip}, [transport], code);
  }

  lemma {:induction false} HostPatternsDenote()
    ensures Denotes(Shipped(DNS), Words(DNS)) && Denotes(Shipped(IP), Words(IP))
    ensures Denotes(Shipped(DNS_OR_IP), Words(DNS_OR_IP))
  {
    hide Denotes, Dns, Ip;
    HostsDenote();
    DenotesEither(Dns(), Words(DNS), Ip(), Words(IP));
    assert Words(DNS) + Words(IP) == Hosted([]);
  }

  lemma {:induction false} CarriedPatternsDenote(name: Name)
    requires name in {TCP_DNS, TCP_IP, TCP, UDP_DNS, UDP_IP, UDP, UNRELIABLE, TCP_ONION3}
    ensures Denotes(Shipped(name), Words(name))
  {
    hide Denotes, Over, Dns, Ip;
    CarriedDenotes(TCP_CODE);
    CarriedDenotes(UDP_CODE);
    DenotesOne(Udp(), Hosted([UDP_CODE]));
    HostedOver(Tcp(), [TCP_CODE], ONION3_CODE);
    assert [TCP_CODE] + [ONION3_CODE] == [TCP_CODE, ONION3_CODE];
  }

  lemma {:induction false} DnsSocketsDenote()
    ensures Denotes(Shipped(WS_DNS), Words(WS_DNS)) && Denotes(Shipped(WSS_DNS), Words(WSS_DNS))
    ensures Denotes(Shipped(WEBSOCKETS_DNS), Words(WEBSOCKETS_DNS))
  {
    hide Denotes, Over, Dns, Ip, Wss, WebSockets, Secured;
    CarriedDenotes(TCP_CODE);
    SocketsDenote(Over(Dns(), TCP_CODE), DNS_HOSTS);
  }

  lemma {:induction false} IpSocketsDenote()
    ensures Denotes(Shipped(WS_IP), Words(WS_IP)) && Denotes(Shipped(WSS_IP), Words(WSS_IP))
    ensures Denotes(Shipped(WEBSOCKETS_IP), Words(WEBSOCKETS_IP))
  {
    hide Denotes, Over, Dns, Ip, Wss, WebSockets, Secured;
    CarriedDenotes(TCP_CODE);
    SocketsDenote(Over(Ip(), TCP_CODE), IP_HOSTS);
  }

  lemma {:induction false} QuicPatternsDenote(name: Name)
    requires name in {QUIC_IP, QUIC_DNS, QUIC, QUIC_V1_IP, QUIC_V1_DNS, QUIC_V1}
    ensures Denotes(Shipped(name), Words(name))
  {
    hide Denotes, Over, Dns, Ip;
    OverUdpDenotes(if name in {QUIC_IP, QUIC_DNS, QUIC} then QUIC_CODE else QUIC_V1_CODE);
  }

  lemma {:induction false} IpPatternsDenote(name: Name)
    requires name in {TCP_IP4, TCP_IP6, UDP_IP4, QUIC_V1_IP4}
    ensures Denotes(Shipped(name), Words(name))
  {
    hide Denotes, Over;
    match name
    case TCP_IP4 => IpOnlyDenotes(IP4_CODE, TCP_CODE, WS_CODE);
    case TCP_IP6 => IpOnlyDenotes(IP6_CODE, TCP_CODE, WS_CODE);
    case UDP_IP4 | QUIC_V1_IP4 => IpOnlyDenotes(IP4_CODE, UDP_CODE, QUIC_V1_CODE);
  }

  lemma {:induction false} ShippedDenotes(name: Name)
    ensures Denotes(Shipped(name), Words(name))
  {
    hide Denotes, Over, Dns, Ip, WebSockets, Wss, Web, Reliable, TlsSni, TlsWs, Secured, SecuredHosts, Hosted, Webbed;
    match name
    case DNS | IP | DNS_OR_IP => HostPatternsDenote();
    case TCP_DNS | TCP_IP | TCP | UDP_DNS | UDP_IP | UDP | UNRELIABLE | TCP_ONION3 => CarriedPatternsDenote(name);
    case UTP | RELIABLE => ReliableDenotes();
    case QUIC_IP | QUIC_DNS | QUIC | QUIC_V1_IP | QUIC_V1_DNS | QUIC_V1 => QuicPatternsDenote(name);
    case TCP_IP4 | TCP_IP6 | UDP_IP4 | QUIC_V1_IP4 => IpPatternsDenote(name);
    case WS_DNS | WSS_DNS | WEBSOCKETS_DNS => DnsSocketsDenote();
    case WS_IP | WSS_IP | WEBSOCKETS_IP => IpSocketsDenote();
    case WS | WSS | WEBSOCKETS => AllSocketsDenote();
    case TLS_SNI | TLS_WS => TlsWsDenotes();
    case IPFS => IpfsDenotes();
    case HTTP => WebDenotes(HTTP_CODE);
    case HTTPS => WebDenotes(HTTPS_CODE);
    case WEBRTC_DIRECT => WebRtcDenotes();
    case _ => DenotesEq(Shipped(name).value);
  }

  /** `match` takes exactly the lists of the table, and `matchPartial` those that begin with one. */
  lemma {:induction false} ShippedMatch(name: Name, protos: seq<nat>)
    ensures Matches(Shipped(name), protos) <==> SpelledBy(Words(name), protos)
    ensures MatchesPartial(Shipped(name), protos) <==>
            exists k :: 0 <= k <= |protos| && SpelledBy(Words(name), protos[..k])
  {
    hide Shipped, Words, InLang, SpelledBy;
    ShippedDenotes(name);
    ShippedAreExact(name, protos);
    assert forall k :: 0 <= k <= |protos| ==>
        (InLang(Shipped(name), protos[..k]) <==> SpelledBy(Words(name), protos[..k]));
  }
}
