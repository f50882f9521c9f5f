/**
 * The ARP packet over Ethernet as RFC 826 lays it out for IPv4: the
 * Ethernet destination and source, the EtherType, then hardware type,
 * protocol type, the two address lengths, the operation and the four
 * addresses, 42 octets in all, multi-octet fields in network order.
 */
module ArpCodec {
  import opened Glab

  /** Octets of an ARP packet for Ethernet and IPv4, Ethernet header included. */
  const ARP_FRAME_SIZE := 42

  const ETHERTYPE_ARP: U16 := 0x0806
  const ETHERTYPE_IPV4: U16 := 0x0800
  const HTYPE_ETHERNET: U16 := 1
  const OPER_REQUEST: U16 := 1
  const OPER_REPLY: U16 := 2

  const BROADCAST_MAC: Mac := [0xFF, 0xFF, 0xFF, 0xFF, 0xFF, 0xFF]

  datatype ArpPacket = ArpPacket(
    ethDst: Mac, ethSrc: Mac, etherType: U16,
    htype: U16, ptype: U16, hlen: Byte, plen: Byte, oper: U16,
    sha: Mac, spa: Ip, tha: Mac, tpa: Ip)

  /** The packet an Ethernet/IPv4 endpoint sends: the types and lengths RFC 826 fixes for it. */
  predicate IsEthernetIpv4(p: ArpPacket)
  {
    p.etherType == ETHERTYPE_ARP && p.htype == HTYPE_ETHERNET && p.ptype == ETHERTYPE_IPV4 &&
    p.hlen == 6 && p.plen == 4
  }

  function Encode(p: ArpPacket): (b: seq<Byte>)
    ensures |b| == ARP_FRAME_SIZE
  {
    p.ethDst + p.ethSrc + Be16(p.etherType) +
    Be16(p.htype) + Be16(p.ptype) + [p.hlen, p.plen] + Be16(p.oper) +
    p.sha + p.spa + p.tha + p.tpa
  }

  /** The fields at their RFC 826 offsets; octets past the 42nd (padding) are ignored. */
  function Decode(b: seq<Byte>): Option<ArpPacket>
  {
    if |b| < ARP_FRAME_SIZE then None
    else Some(ArpPacket(
      b[0..6], b[6..12], FromBe16(b[12], b[13]),
      FromBe16(b[14], b[15]), FromBe16(b[16], b[17]), b[18], b[19], FromBe16(b[20], b[21]),
      b[22..28], b[28..32], b[32..38], b[38..42]))
  }

  /** Every packet is read back as itself. */
  lemma DecodeEncode(p: ArpPacket)
    ensures Decode(Encode(p)) == Some(p)
  {
    var b := Encode(p);
    assert b[0..6] == p.ethDst && b[6..12] == p.ethSrc;
    assert b[22..28] == p.sha && b[28..32] == p.spa && b[32..38] == p.tha && b[38..42] == p.tpa;
  }

  /** The Ethernet header, hardware type and protocol type of a decoded frame re-encode to octets 0 to 17. */
  lemma EncodeDecodeHead(b: seq<Byte>)
    requires |b| >= ARP_FRAME_SIZE
    ensures var p := Decode(b).value;
            p.ethDst + p.ethSrc + Be16(p.etherType) + Be16(p.htype) + Be16(p.ptype) == b[..18]
  {
    var p := Decode(b).value;
    assert Be16(p.etherType) == b[12..14] && Be16(p.htype) == b[14..16] && Be16(p.ptype) == b[16..18];
    assert b[..18] == b[0..6] + b[6..12] + b[12..14] + b[14..16] + b[16..18];
  }

  /** The lengths, operation and addresses of a decoded frame re-encode to octets 18 to 41. */
  lemma EncodeDecodeTail(b: seq<Byte>)
    requires |b| >= ARP_FRAME_SIZE
    ensures var p := Decode(b).value;
            [p.hlen, p.plen] + Be16(p.oper) + p.sha + p.spa + p.tha + p.tpa == b[18..ARP_FRAME_SIZE]
  {
    var p := Decode(b).value;
    assert Be16(p.oper) == b[20..22];
    assert b[18..ARP_FRAME_SIZE] == [b[18], b[19]] + b[20..22] + b[22..28] + b[28..32] + b[32..38] + b[38..42];
  }

  /** Every frame of at least 42 octets is, in its first 42, the encoding of what is read from it. */
  lemma EncodeDecode(b: seq<Byte>)
    requires |b| >= ARP_FRAME_SIZE
    ensures Encode(Decode(b).value) == b[..ARP_FRAME_SIZE]
  {
    EncodeDecodeHead(b);
    EncodeDecodeTail(b);
    assert b[..ARP_FRAME_SIZE] == b[..18] + b[18..ARP_FRAME_SIZE];
  }

  /** The broadcast request asking who has `target`, from the interface `mac`/`ip`. */
  function Request(mac: Mac, ip: Ip, target: Ip): (p: ArpPacket)
    ensures IsEthernetIpv4(p)
  {
    ArpPacket(BROADCAST_MAC, mac, ETHERTYPE_ARP, HTYPE_ETHERNET, ETHERTYPE_IPV4, 6, 4, OPER_REQUEST,
              mac, ip, ZERO_MAC, target)
  }
}
