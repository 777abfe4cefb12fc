/** `ProtocolsList` of `libp2p/multiaddress.nim`, with the codes of `libp2p/multicodec_table.nim`. */
module Protocols {
  import opened Basics
  import opened Multiaddress
  import opened Multicodec
  import opened MultiaddressText
  import opened Text

  /** The parts that come from other libraries: IP, port, onion and peer id texts, and UTF-8. */
  datatype Env = Env(
    showIp4: seq<byte> -> string, parseIp4: string -> Option<seq<byte>>,
    showIp6: seq<byte> -> string, parseIp6: string -> Option<seq<byte>>,
    showPort: seq<byte> -> string, parsePort: string -> Option<seq<byte>>,
    showOnion: seq<byte> -> string, parseOnion: string -> Option<seq<byte>>,
    showOnion3: seq<byte> -> string, parseOnion3: string -> Option<seq<byte>>,
    showPeer: seq<byte> -> string, parsePeer: string -> Option<seq<byte>>,
    isPeerId: seq<byte> -> bool,
    isUtf8: seq<byte> -> bool)

  function FixedCoder(size: nat, show: seq<byte> -> string, parse: string -> Option<seq<byte>>): Transcoder {
    Transcoder(
      parse,
      bs => if |bs| == size then Some(show(bs)) else None,
      bs => |bs| == size)
  }

  predicate NameBytes(bs: seq<byte>) {
    bs != [] && forall i :: 0 <= i < |bs| ==> bs[i] != SLASH as int
  }

  /** DNS names and IPv6 zones: non-empty, and no slash on the way out. */
  function NameCoder(): Transcoder {
    Transcoder(
      s => PathBytes(s),
      bs => if NameBytes(bs) then Some(Chars(bs)) else None,
      bs => NameBytes(bs))
  }

  function SniCoder(env: Env): Transcoder {
    Transcoder(
      s => if Latin(s) && NameBytes(Bytes(s)) && env.isUtf8(Bytes(s)) then Some(Bytes(s)) else None,
      bs => if NameBytes(bs) && env.isUtf8(bs) then Some(Chars(bs)) else None,
      bs => NameBytes(bs) && env.isUtf8(bs))
  }

  function PathCoder(): Transcoder {
    Transcoder(s => PathBytes(s), bs => if bs != [] then Some(Chars(bs)) else None, bs => bs != [])
  }

  function PeerCoder(env: Env): Transcoder {
    Transcoder(
      env.parsePeer,
      bs => if bs != [] && env.isPeerId(bs) then Some(env.showPeer(bs)) else None,
      bs => bs != [] && env.isPeerId(bs))
  }

  datatype Entry = Entry(code: nat, proto: Protocol)

  function Mark(code: nat, name: string): Entry {
    Entry(code, Protocol(name, Marker, 0, None))
  }

  function Prefixed(code: nat, name: string, coder: Transcoder): Entry {
    Entry(code, Protocol(name, Length, 0, Some(coder)))
  }

  function Sized(
      code: nat, name: string, size: nat, show: seq<byte> -> string, parse: string -> Option<seq<byte>>): Entry
  {
    Entry(code, Protocol(name, Fixed, size, Some(FixedCoder(size, show, parse))))
  }

  function Paths(code: nat, name: string): Entry {
    Entry(code, Protocol(name, Path, 0, Some(PathCoder())))
  }

  function Networks(env: Env): seq<Entry> {
    [ Sized(IP4_CODE, "ip4", 4, env.showIp4, env.parseIp4),
      Sized(TCP_CODE, "tcp", 2, env.showPort, env.parsePort),
      Sized(UDP_CODE, "udp", 2, env.showPort, env.parsePort),
      Sized(IP6_CODE, "ip6", 16, env.showIp6, env.parseIp6),
      Sized(DCCP_CODE, "dccp", 2, env.showPort, env.parsePort),
      Sized(SCTP_CODE, "sctp", 2, env.showPort, env.parsePort),
      Sized(ONION_CODE, "onion", 12, env.showOnion, env.parseOnion),
      Sized(ONION3_CODE, "onion3", 37, env.showOnion3, env.parseOnion3) ]
  }

  function Names(env: Env): seq<Entry> {
    [ Prefixed(IP6ZONE_CODE, "ip6zone", NameCoder()),
      Prefixed(SNI_CODE, "sni", SniCoder(env)),
      Prefixed(IPFS_CODE, "ipfs", PeerCoder(env)),
      Prefixed(P2P_CODE, "p2p", PeerCoder(env)),
      Paths(UNIX_CODE, "unix"),
      Prefixed(DNS_CODE, "dns", NameCoder()),
      Prefixed(DNS4_CODE, "dns4", NameCoder()),
      Prefixed(DNS6_CODE, "dns6", NameCoder()),
      Prefixed(DNSADDR_CODE, "dnsaddr", NameCoder()),
      Paths(MEMORY_CODE, "memorytransport") ]
  }

  function Marks(): seq<Entry> {
    [ Mark(UDT_CODE, "udt"),
      Mark(UTP_CODE, "utp"),
      Mark(HTTP_CODE, "http"),
      Mark(HTTPS_CODE, "https"),
      Mark(QUIC_CODE, "quic"),
      Mark(QUIC_V1_CODE, "quic-v1"),
      Mark(WS_CODE, "ws"),
      Mark(WSS_CODE, "wss"),
      Mark(TLS_CODE, "tls"),
      Mark(CIRCUIT_CODE, "p2p-circuit"),
      Mark(WEBSOCKET_STAR_CODE, "p2p-websocket-star"),
      Mark(WEBRTC_STAR_CODE, "p2p-webrtc-star"),
      Mark(WEBRTC_DIRECT_CODE, "p2p-webrtc-direct") ]
  }

  /** `initMultiAddressCodeTable`. */
  function CodeTable(entries: seq<Entry>): map<nat, Protocol> {
    if entries == [] then map[]
    else CodeTable(entries[..|entries| - 1])[entries[|entries| - 1].code := entries[|entries| - 1].proto]
  }

  /** The names of those protocols. The multicodec table holds further names, which stand for codes no
      address can hold. */
  function StandardNames(): map<string, nat> {
    map[
      "ip4" := IP4_CODE, "tcp" := TCP_CODE, "udp" := UDP_CODE, "ip6" := IP6_CODE, "dccp" := DCCP_CODE, "sctp" := SCTP_CODE,
      "udt" := UDT_CODE, "utp" := UTP_CODE, "http" := HTTP_CODE, "https" := HTTPS_CODE, "quic" := QUIC_CODE,
      "quic-v1" := QUIC_V1_CODE, "ip6zone" := IP6ZONE_CODE, "onion" := ONION_CODE, "onion3" := ONION3_CODE, "ws" := WS_CODE,
      "wss" := WSS_CODE, "tls" := TLS_CODE, "sni" := SNI_CODE, "ipfs" := IPFS_CODE, "p2p" := P2P_CODE,
      "unix" := UNIX_CODE, "dns" := DNS_CODE, "dns4" := DNS4_CODE, "dns6" := DNS6_CODE, "dnsaddr" := DNSADDR_CODE,
      "p2p-circuit" := CIRCUIT_CODE, "p2p-websocket-star" := WEBSOCKET_STAR_CODE, "p2p-webrtc-star" := WEBRTC_STAR_CODE,
      "p2p-webrtc-direct" := WEBRTC_DIRECT_CODE, "memorytransport" := MEMORY_CODE
    ]
  }

  function ProtocolsList(env: Env): seq<Entry> {
    Networks(env) + Names(env) + Marks()
  }

  function StandardRegistry(env: Env): Registry {
    Registry(CodeTable(ProtocolsList(env)), StandardNames())
  }

  lemma {:induction false} CodeTableEntries(entries: seq<Entry>)
    ensures forall code :: code in CodeTable(entries) ==> Entry(code, CodeTable(entries)[code]) in entries
    ensures forall e :: e in entries ==> e.code in CodeTable(entries)
  {
    if entries != [] {
      CodeTableEntries(entries[..|entries| - 1]);
    }
  }

  /** A name is clean and stands for a code. */
  predicate Stands(name: string, code: nat) {
    name != "" && SlashFree(name) && name in StandardNames() && StandardNames()[name] == code
  }

  lemma {:induction false} NetworkNames()
    ensures Stands("ip4", IP4_CODE) && Stands("tcp", TCP_CODE) && Stands("udp", UDP_CODE) && Stands("ip6", IP6_CODE)
    ensures Stands("dccp", DCCP_CODE) && Stands("sctp", SCTP_CODE) && Stands("onion", ONION_CODE) && Stands("onion3", ONION3_CODE)
  {
  }

  lemma {:induction false} PrefixedNames()
    ensures Stands("ip6zone", IP6ZONE_CODE) && Stands("sni", SNI_CODE) && Stands("ipfs", IPFS_CODE) && Stands("p2p", P2P_CODE)
    ensures Stands("unix", UNIX_CODE) && Stands("dns", DNS_CODE) && Stands("dns4", DNS4_CODE) && Stands("dns6", DNS6_CODE)
    ensures Stands("dnsaddr", DNSADDR_CODE) && Stands("memorytransport", MEMORY_CODE)
  {
  }

  lemma {:induction false} MarkNames()
    ensures Stands("udt", UDT_CODE) && Stands("utp", UTP_CODE) && Stands("http", HTTP_CODE) && Stands("https", HTTPS_CODE)
    ensures Stands("quic", QUIC_CODE) && Stands("quic-v1", QUIC_V1_CODE) && Stands("ws", WS_CODE) && Stands("wss", WSS_CODE)
    ensures Stands("tls", TLS_CODE)
  {
  }

  lemma {:induction false} LongMarkNames()
    ensures Stands("p2p-circuit", CIRCUIT_CODE) && Stands("p2p-websocket-star", WEBSOCKET_STAR_CODE)
    ensures Stands("p2p-webrtc-star", WEBRTC_STAR_CODE) && Stands("p2p-webrtc-direct", WEBRTC_DIRECT_CODE)
  {
  }

  /** An entry's name stands for its code, and its transcoder is there and refuses an empty prefixed
      payload. */
  ghost predicate SoundEntry(e: Entry) {
    && Stands(e.proto.name, e.code)
    && (e.proto.kind.Marker? || e.proto.coder.Some?)
    && (HasPrefix(e.proto.kind) ==> !e.proto.coder.value.valid([]))
    && (e.code == IP4_CODE ==> IpEntry(e, 4))
    && (e.code == IP6_CODE ==> IpEntry(e, 16))
    && (e.code == P2P_CODE ==> e.proto.kind.Length?)
  }

  ghost predicate IpEntry(e: Entry, size: nat) {
    && e.proto.kind.Fixed?
    && e.proto.size == size
    && e.proto.coder.Some?
    && forall ip :: |ip| == size ==> e.proto.coder.value.valid(ip)
  }

  lemma {:induction false} SizedOk(
      code: nat, name: string, size: nat, show: seq<byte> -> string, parse: string -> Option<seq<byte>>)
    requires Stands(name, code) && code != P2P_CODE
    requires (code == IP4_CODE ==> size == 4) && (code == IP6_CODE ==> size == 16)
    ensures SoundEntry(Sized(code, name, size, show, parse))
  {
    hide Stands;
  }

  lemma {:induction false} PrefixedOk(code: nat, name: string, coder: Transcoder)
    requires Stands(name, code) && code != IP4_CODE && code != IP6_CODE && !coder.valid([])
    ensures SoundEntry(Prefixed(code, name, coder))
  {
    hide Stands;
  }

  lemma {:induction false} PathsOk(code: nat, name: string)
    requires Stands(name, code) && code !in {IP4_CODE, IP6_CODE, P2P_CODE}
    ensures SoundEntry(Paths(code, name))
  {
    hide Stands;
  }

  lemma {:induction false} MarkOk(code: nat, name: string)
    requires Stands(name, code) && code !in {IP4_CODE, IP6_CODE, P2P_CODE}
    ensures SoundEntry(Mark(code, name))
  {
    hide Stands;
  }

  lemma {:induction false} NetworksOk(env: Env)
    ensures forall e :: e in Networks(env) ==> SoundEntry(e)
  {
    hide Stands, SoundEntry, Sized;
    NetworkNames();
    SizedOk(IP4_CODE, "ip4", 4, env.showIp4, env.parseIp4);
    SizedOk(TCP_CODE, "tcp", 2, env.showPort, env.parsePort);
    SizedOk(UDP_CODE, "udp", 2, env.showPort, env.parsePort);
    SizedOk(IP6_CODE, "ip6", 16, env.showIp6, env.parseIp6);
    SizedOk(DCCP_CODE, "dccp", 2, env.showPort, env.parsePort);
    SizedOk(SCTP_CODE, "sctp", 2, env.showPort, env.parsePort);
    SizedOk(ONION_CODE, "onion", 12, env.showOnion, env.parseOnion);
    SizedOk(ONION3_CODE, "onion3", 37, env.showOnion3, env.parseOnion3);
  }

  lemma {:induction false} NamesOk(env: Env)
    ensures forall e :: e in Names(env) ==> SoundEntry(e)
  {
    hide Stands, SoundEntry, Prefixed, Paths;
    PrefixedNames();
    PrefixedOk(IP6ZONE_CODE, "ip6zone", NameCoder());
    PrefixedOk(SNI_CODE, "sni", SniCoder(env));
    PrefixedOk(IPFS_CODE, "ipfs", PeerCoder(env));
    PrefixedOk(P2P_CODE, "p2p", PeerCoder(env));
    PathsOk(UNIX_CODE, "unix");
    PrefixedOk(DNS_CODE, "dns", NameCoder());
    PrefixedOk(DNS4_CODE, "dns4", NameCoder());
    PrefixedOk(DNS6_CODE, "dns6", NameCoder());
    PrefixedOk(DNSADDR_CODE, "dnsaddr", NameCoder());
    PathsOk(MEMORY_CODE, "memorytransport");
  }

  lemma {:induction false} MarksOk()
    ensures forall e :: e in Marks() ==> SoundEntry(e)
  {
    hide Stands, SoundEntry, Mark;
    MarkNames();
    LongMarkNames();
    MarkOk(UDT_CODE, "udt");
    MarkOk(UTP_CODE, "utp");
    MarkOk(HTTP_CODE, "http");
    MarkOk(HTTPS_CODE, "https");
    MarkOk(QUIC_CODE, "quic");
    MarkOk(QUIC_V1_CODE, "quic-v1");
    MarkOk(WS_CODE, "ws");
    MarkOk(WSS_CODE, "wss");
    MarkOk(TLS_CODE, "tls");
    MarkOk(CIRCUIT_CODE, "p2p-circuit");
    MarkOk(WEBSOCKET_STAR_CODE, "p2p-websocket-star");
    MarkOk(WEBRTC_STAR_CODE, "p2p-webrtc-star");
    MarkOk(WEBRTC_DIRECT_CODE, "p2p-webrtc-direct");
  }

  lemma {:induction false} EntriesOk(env: Env)
    ensures forall e :: e in ProtocolsList(env) ==> SoundEntry(e)
  {
    NetworksOk(env);
    NamesOk(env);
    MarksOk();
    hide Networks, Names, Marks, SoundEntry;
  }

  /** Every name of the shipped table prints without slashes and parses back to its own protocol. */
  lemma {:induction false} StandardNamed(env: Env)
    ensures Named(StandardRegistry(env))
  {
    EntriesOk(env);
    CodeTableEntries(ProtocolsList(env));
    hide ProtocolsList, CodeTable, StandardNames;
  }

  /** The shipped table meets what the address theorems ask of a registry. */
  lemma {:induction false} StandardSound(env: Env)
    ensures Sound(StandardRegistry(env))
  {
    EntriesOk(env);
    SomeEntries(env);
    CodeTableEntries(ProtocolsList(env));
    hide ProtocolsList, CodeTable, StandardNames, Stands;
    var t := CodeTable(ProtocolsList(env));
    assert IP4_CODE in t && IP6_CODE in t && P2P_CODE in t;
    assert SoundEntry(Entry(IP4_CODE, t[IP4_CODE])) && SoundEntry(Entry(IP6_CODE, t[IP6_CODE]));
    assert SoundEntry(Entry(P2P_CODE, t[P2P_CODE]));
    assert forall code :: code in t ==> SoundEntry(Entry(code, t[code]));
  }

  ghost predicate HasCode(entries: seq<Entry>, code: nat) {
    exists e :: e in entries && e.code == code
  }

  lemma {:induction false} SomeEntries(env: Env)
    ensures HasCode(ProtocolsList(env), IP4_CODE)
    ensures HasCode(ProtocolsList(env), IP6_CODE)
    ensures HasCode(ProtocolsList(env), P2P_CODE)
  {
    hide FixedCoder, NameCoder, SniCoder, PeerCoder, PathCoder;
    assert Networks(env)[0] in ProtocolsList(env) && Networks(env)[3] in ProtocolsList(env);
    assert Names(env)[3] in ProtocolsList(env);
  }

  /** DNS names, IPv6 zones and SNI names invert on every payload they accept. */
  lemma {:induction false} NamesInvert(env: Env, bs: seq<byte>)
    requires NameBytes(bs)
    ensures var coder := NameCoder();
      coder.show(bs) == Some(Chars(bs)) && coder.parse(Chars(bs)) == Some(bs)
    ensures SniCoder(env).valid(bs) ==>
      SniCoder(env).show(bs) == Some(Chars(bs)) && SniCoder(env).parse(Chars(bs)) == Some(bs)
    ensures Chars(bs) != "" && SlashFree(Chars(bs))
  {
    BytesOfChars(bs);
    forall i | 0 <= i < |bs| ensures Chars(bs)[i] != SLASH {
      assert Chars(bs)[i] as int == bs[i];
    }
  }
}
