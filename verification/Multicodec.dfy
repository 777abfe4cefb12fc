/** The codes of `libp2p/multicodec_table.nim` that addresses hold. */
module Multicodec {
  const IP4_CODE := 0x04
  const TCP_CODE := 0x06
  const DCCP_CODE := 0x21
  const IP6_CODE := 0x29
  const IP6ZONE_CODE := 0x2A
  const DNS_CODE := 0x35
  const DNS4_CODE := 0x36
  const DNS6_CODE := 0x37
  const DNSADDR_CODE := 0x38
  const SCTP_CODE := 0x84
  const IPFS_CODE := 0xE3
  const UDP_CODE := 0x0111
  const WEBRTC_STAR_CODE := 0x0113
  const WEBRTC_DIRECT_CODE := 0x0114
  const CIRCUIT_CODE := 0x0122
  const UDT_CODE := 0x012D
  const UTP_CODE := 0x012E
  const UNIX_CODE := 0x0190
  const P2P_CODE := 0x01A5
  const HTTPS_CODE := 0x01BB
  const ONION_CODE := 0x01BC
  const ONION3_CODE := 0x01BD
  const TLS_CODE := 0x01C0
  const SNI_CODE := 0x01C1
  const QUIC_CODE := 0x01CC
  const QUIC_V1_CODE := 0x01CD
  const WS_CODE := 0x01DD
  const WSS_CODE := 0x01DE
  const WEBSOCKET_STAR_CODE := 0x01DF
  const HTTP_CODE := 0x01E0
  const MEMORY_CODE := 0x0309
}
