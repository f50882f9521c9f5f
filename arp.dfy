/**
 * The ARP tool of arp.c: interfaces with an IPv4 address, a table of every
 * sender seen, a reply to requests for an interface's own address, and the
 * `arp IP IFC` control command that broadcasts a request.
 *
 * `parse_frame` reads the frame through `struct ArpHeaderEthernetIPv4`, whose
 * fields start two octets after the RFC 826 offsets (the Ethernet `tag` is
 * missing from it), and it reads `oper` in host order; the model reads the
 * octets where that struct puts them on a little-endian host.
 */
module Arp {
  import opened Glab
  import opened Text
  import opened ArpCodec
  import opened ArpArgs

  /** Capacity of `arpTable`. */
  const ARP_TABLE_SIZE := 500

  /** Capacity of `arpCache`. */
  const CACHE_SIZE := 1024

  /** `sizeof (struct EthernetHeader)`: shorter frames are dropped. */
  const ETHERNET_HEADER_SIZE := 14

  /** `sizeof (struct ArpHeaderEthernetIPv4)`: the octets `parse_frame` reads. */
  const ARP_HEADER_SIZE := 40

  /** `struct Interface`. */
  datatype Interface = Interface(mac: Mac, ip: Ip, netmask: Ip, name: string, ifcNum: U16, mtu: nat)

  /** `struct arpProps`: a sender seen on the wire; the interface is an index into `gifc`. */
  datatype ArpProps = ArpProps(mac: Mac, ip: Ip, ifc: Option<nat>)

  /** A zero-initialised `arpTable` slot. */
  const BLANK_PROPS := ArpProps(ZERO_MAC, [0, 0, 0, 0], None)

  /** `struct ArpEntry`. */
  datatype ArpEntry = ArpEntry(mac: Mac, ip: Ip)

  /** Interface `k` carries number `k + 1`. */
  predicate Numbered(ifcs: seq<Interface>)
  {
    forall k :: 0 <= k < |ifcs| ==> ifcs[k].ifcNum == k + 1
  }

  /** The entry `parse_frame` records: `sender_ha` and `sender_pa` as the struct places them. */
  function Observed(frame: seq<Byte>): (p: ArpProps)
    requires |frame| >= ARP_HEADER_SIZE
    ensures p.ifc.None?
  {
    ArpProps(frame[20..26], frame[26..30], None)
  }

  /**
   * The test in `parse_frame`: `target_pa` (octets 36 to 39) is the interface's
   * address and `oper` reads 0x0100 (octets 18 and 19 are 00 01).
   */
  predicate AnswersRequest(ifc: Interface, frame: seq<Byte>)
    ensures AnswersRequest(ifc, frame) && |frame| >= ARP_FRAME_SIZE ==> !IsEthernetIpv4(Decode(frame).value)
  {
    |frame| >= ARP_HEADER_SIZE && frame[36..40] == ifc.ip && frame[18] == 0 && frame[19] == 1
  }

  /** The first 42 octets of the reply `parse_frame` builds; the rest of its buffer is never written. */
  function ReplyHeader(mac: Mac, ip: Ip, frame: seq<Byte>): (r: seq<Byte>)
    requires |frame| >= ARP_FRAME_SIZE
    ensures |r| == ARP_FRAME_SIZE
  {
    frame[6..12] + mac + frame[12..14] + [0, 1] + frame[16..21] + [2] + mac + ip + frame[32..42]
  }

  /** `e` is a reply of `ifc` to `frame`: sent back on `ifc`, as long as `frame`, with that header. */
  predicate IsReply(ifc: Interface, frame: seq<Byte>, e: Emission)
    requires |frame| >= ARP_FRAME_SIZE
    ensures IsReply(ifc, frame, e) ==>
              |e.frame| >= ARP_FRAME_SIZE && e.frame[..6] == frame[6..12] && e.frame[6..12] == ifc.mac
  {
    var h := ReplyHeader(ifc.mac, ifc.ip, frame);
    assert h[..6] == frame[6..12] && h[6..12] == ifc.mac;
    e.ifcNum == ifc.ifcNum && |e.frame| == |frame| && e.frame[..ARP_FRAME_SIZE] == h
  }

  /** The struct's fields in RFC 826 terms: each is two octets early. */
  lemma SkewedFields(frame: seq<Byte>)
    requires |frame| >= ARP_FRAME_SIZE
    ensures var p := Decode(frame).value;
            frame[18..20] == [p.hlen, p.plen] &&
            Observed(frame).mac == Be16(p.oper) + p.sha[..4] &&
            Observed(frame).ip == p.sha[4..] + p.spa[..2] &&
            frame[36..40] == p.tha[4..] + p.tpa[..2]
  {
    var p := Decode(frame).value;
    assert Be16(p.oper) == frame[20..22];
    assert frame[20..26] == frame[20..22] + frame[22..26];
    assert frame[26..30] == frame[26..28] + frame[28..30];
    assert frame[36..40] == frame[36..38] + frame[38..40];
  }

  /**
   * Which ARP packets `parse_frame` answers, in RFC 826 terms: those whose
   * address lengths read 0 and 1 and whose last two target-hardware octets and
   * first two target-protocol octets spell the interface's address.
   */
  lemma AnsweredPackets(ifc: Interface, frame: seq<Byte>)
    requires |frame| >= ARP_FRAME_SIZE
    ensures var p := Decode(frame).value;
            AnswersRequest(ifc, frame) <==> p.hlen == 0 && p.plen == 1 && p.tha[4..] + p.tpa[..2] == ifc.ip
  {
    SkewedFields(frame);
  }

  /**
   * A request as RFC 826 writes it for Ethernet and IPv4 (address lengths 6
   * and 4) is never answered, whatever it asks for and however it is padded.
   */
  lemma WellFormedRequestUnanswered(ifc: Interface, p: ArpPacket, padding: seq<Byte>)
    requires IsEthernetIpv4(p)
    ensures !AnswersRequest(ifc, Encode(p) + padding)
  {
    var frame := Encode(p) + padding;
    var before := p.ethDst + p.ethSrc + Be16(p.etherType) + Be16(p.htype) + Be16(p.ptype);
    assert |before| == 18;
    assert Encode(p) == before + ([p.hlen, p.plen] + Be16(p.oper) + p.sha + p.spa + p.tha + p.tpa);
    assert frame[18] == Encode(p)[18] == p.hlen;
  }

  /**
   * The reply in RFC 826 terms: addressed to the frame's sender, from the
   * interface, hardware type 1, operation octet 20 of the frame then 2 (so 2
   * only when octet 20 was 0), sender the interface; the EtherType, protocol
   * type, lengths and target addresses are the frame's own.
   */
  lemma ReplyFields(mac: Mac, ip: Ip, frame: seq<Byte>)
    requires |frame| >= ARP_FRAME_SIZE
    ensures Decode(ReplyHeader(mac, ip, frame)) ==
            Some(ArpPacket(frame[6..12], mac, FromBe16(frame[12], frame[13]),
                           HTYPE_ETHERNET, FromBe16(frame[16], frame[17]), frame[18], frame[19],
                           FromBe16(frame[20], OPER_REPLY),
                           mac, ip, frame[32..38], frame[38..42]))
  {
    var r := ReplyHeader(mac, ip, frame);
    assert r[0..6] == frame[6..12] && r[6..12] == mac && r[22..28] == mac && r[28..32] == ip;
    assert r[32..] == frame[32..42];
    assert r[32..38] == r[32..][..6] && r[38..42] == r[32..][6..];
    assert r[32..38] == frame[32..38] && r[38..42] == frame[38..42];
  }

  /** The first interface named `name`, compared as `strcasecmp` does. */
  function FirstNamed(ifcs: seq<Interface>, name: string): (r: Option<nat>)
    ensures r.Some? ==> r.value < |ifcs| && EqualIgnoreCase(name, ifcs[r.value].name)
    ensures r.Some? ==> forall k :: 0 <= k < r.value ==> !EqualIgnoreCase(name, ifcs[k].name)
    ensures r.None? <==> forall k :: 0 <= k < |ifcs| ==> !EqualIgnoreCase(name, ifcs[k].name)
  {
    if |ifcs| == 0 then None
    else if EqualIgnoreCase(name, ifcs[0].name) then Some(0)
    else match FirstNamed(ifcs[1..], name)
      case None =>
        assert forall k :: 1 <= k < |ifcs| ==> ifcs[k] == ifcs[1..][k - 1];
        None
      case Some(i) => Some(i + 1)
  }

  /** The first interface with hardware address `mac`. */
  function FirstWithMac(ifcs: seq<Interface>, mac: Mac): (r: Option<nat>)
    ensures r.Some? ==> r.value < |ifcs| && ifcs[r.value].mac == mac
    ensures r.Some? ==> forall k :: 0 <= k < r.value ==> ifcs[k].mac != mac
    ensures r.None? <==> forall k :: 0 <= k < |ifcs| ==> ifcs[k].mac != mac
  {
    if |ifcs| == 0 then None
    else if ifcs[0].mac == mac then Some(0)
    else match FirstWithMac(ifcs[1..], mac)
      case None =>
        assert forall k :: 1 <= k < |ifcs| ==> ifcs[k] == ifcs[1..][k - 1];
        None
      case Some(i) => Some(i + 1)
  }

  /** What a control command leads to. */
  datatype CmdOutcome =
    | ListedCache(entries: seq<ArpEntry>)
    | InvalidAddress(tok: string)
    | NoInterfaceGiven
    | UnknownInterface(tok: string)
    | RequestSent(sent: Emission)
    | Unsupported(tok: string)

  /**
   * `process_cmd_arp` on the tokens after `arp`: no token lists the cache; a
   * valid address and a known interface name broadcast a request for the
   * address from that interface, sent on the first interface that shares its
   * hardware address.
   */
  function CmdArp(ifcs: seq<Interface>, cache: seq<ArpEntry>, args: seq<string>): (r: CmdOutcome)
    ensures r.ListedCache? <==> |args| == 0
    ensures r.ListedCache? ==> r.entries == cache
    ensures r.RequestSent? <==> |args| >= 2 && ParseIPv4(args[0]).Some? && FirstNamed(ifcs, args[1]).Some?
    ensures r.RequestSent? ==> |r.sent.frame| == ARP_FRAME_SIZE && r.sent.frame[..6] == BROADCAST_MAC
    ensures !r.Unsupported?
  {
    if |args| == 0 then ListedCache(cache)
    else match ParseIPv4(args[0])
      case None => InvalidAddress(args[0])
      case Some(v4) =>
        if |args| == 1 then NoInterfaceGiven
        else match FirstNamed(ifcs, args[1])
          case None => UnknownInterface(args[1])
          case Some(i) =>
            var j := FirstWithMac(ifcs, ifcs[i].mac).value;
            RequestSent(Emission(ifcs[j].ifcNum, Encode(Request(ifcs[i].mac, ifcs[i].ip, v4))))
  }

  /** The tokens of the line `handle_control` receives, after it overwrites the last character with NUL. */
  function CommandTokens(cmd: string): (toks: seq<string>)
    requires |cmd| >= 1
    ensures forall k :: 0 <= k < |toks| ==> |toks[k]| > 0 && '\0' !in toks[k]
  {
    TokensExclude(CString(cmd[..|cmd| - 1]), ' ', '\0');
    Tokens(CString(cmd[..|cmd| - 1]), ' ')
  }

  /** `handle_control`: `arp` in any case runs the ARP command; anything else is unsupported. */
  function Control(ifcs: seq<Interface>, cache: seq<ArpEntry>, cmd: string): (r: CmdOutcome)
    requires |cmd| >= 1 && |CommandTokens(cmd)| > 0
    ensures r.Unsupported? <==> !EqualIgnoreCase(CommandTokens(cmd)[0], "arp")
  {
    var toks := CommandTokens(cmd);
    if EqualIgnoreCase(toks[0], "arp") then CmdArp(ifcs, cache, toks[1..]) else Unsupported(toks[0])
  }

  /**
   * A control line of words separated by single spaces, ending in a newline:
   * `arp` in any case runs the ARP command on the other words, any other
   * first word is unsupported.
   */
  lemma ControlOfLine(ifcs: seq<Interface>, cache: seq<ArpEntry>, words: seq<string>)
    requires |words| > 0
    requires forall k :: 0 <= k < |words| ==> |words[k]| > 0 && ' ' !in words[k] && '\0' !in words[k]
    ensures var cmd := Join(words, ' ') + "\n";
            |cmd| >= 1 && CommandTokens(cmd) == words &&
            Control(ifcs, cache, cmd) ==
              if EqualIgnoreCase(words[0], "arp") then CmdArp(ifcs, cache, words[1..]) else Unsupported(words[0])
  {
    var line := Join(words, ' ');
    var cmd := line + "\n";
    assert cmd[..|cmd| - 1] == line;
    JoinExcludes(words, ' ', '\0');
    assert CString(line) == line;
    TokensOfJoin(words, ' ');
  }

  /**
   * `arp A N` for the address `A` and the interface `i` that the name `N`
   * finds: a broadcast RFC 826 request from `i` asking for `A`, sent on the
   * first interface with `i`'s hardware address.
   */
  lemma ArpCommandRequests(ifcs: seq<Interface>, cache: seq<ArpEntry>, a: Ip, name: string, i: nat)
    requires FirstNamed(ifcs, name) == Some(i)
    ensures var o := CmdArp(ifcs, cache, [FormatIPv4(a), name]);
            o.RequestSent? &&
            FirstWithMac(ifcs, ifcs[i].mac).Some? && FirstWithMac(ifcs, ifcs[i].mac).value <= i &&
            o.sent.ifcNum == ifcs[FirstWithMac(ifcs, ifcs[i].mac).value].ifcNum &&
            Decode(o.sent.frame) == Some(Request(ifcs[i].mac, ifcs[i].ip, a)) &&
            Decode(o.sent.frame).value.ethDst == BROADCAST_MAC && Decode(o.sent.frame).value.tpa == a
  {
    ParseFormatIPv4(a);
    DecodeEncode(Request(ifcs[i].mac, ifcs[i].ip, a));
  }

  /** When no two interfaces share a hardware address the request leaves on the named interface. */
  lemma RequestOnNamedInterface(ifcs: seq<Interface>, cache: seq<ArpEntry>, addr: string, name: string, rest: seq<string>)
    requires forall j, k :: 0 <= j < k < |ifcs| ==> ifcs[j].mac != ifcs[k].mac
    requires ParseIPv4(addr).Some? && FirstNamed(ifcs, name).Some?
    ensures var o := CmdArp(ifcs, cache, [addr, name] + rest);
            o.RequestSent? && o.sent.ifcNum == ifcs[FirstNamed(ifcs, name).value].ifcNum
  {
    var args := [addr, name] + rest;
    assert args[0] == addr && args[1] == name;
    var i := FirstNamed(ifcs, name).value;
    var j := FirstWithMac(ifcs, ifcs[i].mac).value;
    assert ifcs[j].mac == ifcs[i].mac;
  }

  /** Two interfaces that still carry the start-up address 00:00:00:00:00:00. */
  const TWO_FRESH: seq<Interface> := [
    Interface(ZERO_MAC, [10, 0, 0, 1], [255, 0, 0, 0], "eth0", 1, DEFAULT_MTU),
    Interface(ZERO_MAC, [10, 0, 1, 1], [255, 0, 0, 0], "eth1", 2, DEFAULT_MTU)]

  /**
   * Before any MAC information arrives every interface has the zero address,
   * so a request built for eth1, with eth1's IPv4 address, is sent on eth0.
   */
  lemma SharedMacSendsOnFirst(a: Ip)
    ensures var o := CmdArp(TWO_FRESH, [], [FormatIPv4(a), "eth1"]);
            o.RequestSent? && o.sent.ifcNum == 1 &&
            Decode(o.sent.frame).value.spa == [10, 0, 1, 1]
  {
    assert !EqualIgnoreCase("eth1", "eth0") by {
      assert ToLower("eth1"[3]) != ToLower("eth0"[3]);
    }
    assert EqualIgnoreCase("eth1", "eth1");
    assert FirstNamed(TWO_FRESH, "eth1") == Some(1) by {
      assert FirstNamed(TWO_FRESH[1..], "eth1") == Some(0);
    }
    assert FirstWithMac(TWO_FRESH, ZERO_MAC) == Some(0);
    ArpCommandRequests(TWO_FRESH, [], a, "eth1", 1);
  }

  /** `addEntryToCache`/`isIpInCache`: whether some entry holds `ip`. */
  predicate InCache(cache: seq<ArpEntry>, ip: Ip)
  {
    exists k :: 0 <= k < |cache| && cache[k].ip == ip
  }

  /** An added entry is found by its address, and no other address becomes found. */
  lemma AddedEntryFound(cache: seq<ArpEntry>, e: ArpEntry, ip: Ip)
    ensures InCache(cache + [e], ip) <==> InCache(cache, ip) || ip == e.ip
  {
    var c := cache + [e];
    if InCache(cache, ip) {
      var k :| 0 <= k < |cache| && cache[k].ip == ip;
      assert c[k] == cache[k];
    }
    if ip == e.ip {
      assert c[|cache|].ip == ip;
    }
    if InCache(c, ip) && ip != e.ip {
      var k :| 0 <= k < |c| && c[k].ip == ip;
      assert k < |cache| && c[k] == cache[k];
    }
  }

  /** A request's octets: the fixed type, length and operation fields sit between the addresses. */
  lemma RequestLayout(mac: Mac, ip: Ip, target: Ip)
    ensures Encode(Request(mac, ip, target)) ==
            BROADCAST_MAC + mac + [8, 6, 0, 1, 8, 0, 6, 4, 0, 1] + mac + ip + ZERO_MAC + target
  {
    assert Be16(ETHERTYPE_ARP) == [8, 6] && Be16(HTYPE_ETHERNET) == [0, 1];
    assert Be16(ETHERTYPE_IPV4) == [8, 0] && Be16(OPER_REQUEST) == [0, 1];
    var pre := BROADCAST_MAC + mac;
    assert pre + [8, 6] + [0, 1] + [8, 0] + [6, 4] + [0, 1] == pre + [8, 6, 0, 1, 8, 0, 6, 4, 0, 1];
  }

  /** Octets 12 to 21 of the request: EtherType ARP, Ethernet, IPv4, lengths 6 and 4, operation request. */
  method WriteRequestTypes(buf: array<Byte>)
    requires buf.Length == ARP_FRAME_SIZE
    modifies buf
    ensures buf[..12] == old(buf[..12])
    ensures buf[12..22] == [8, 6, 0, 1, 8, 0, 6, 4, 0, 1]
  {
    buf[12] := 0x08;
    buf[13] := 0x06;
    buf[14] := 0x00;
    buf[15] := 0x01;
    buf[16] := 0x08;
    buf[17] := 0x00;
    buf[18] := 0x06;
    buf[19] := 0x04;
    buf[20] := 0x00;
    buf[21] := 0x01;
  }

  /** Octets 0 to 21 of the request: broadcast destination, source, fixed type, length and operation fields. */
  method WriteRequestHead(buf: array<Byte>, mac: Mac)
    requires buf.Length == ARP_FRAME_SIZE
    modifies buf
    ensures buf[..22] == BROADCAST_MAC + mac + [8, 6, 0, 1, 8, 0, 6, 4, 0, 1]
  {
    buf[0], buf[1], buf[2], buf[3], buf[4], buf[5] := 0xFF, 0xFF, 0xFF, 0xFF, 0xFF, 0xFF;
    assert buf[..6] == BROADCAST_MAC;
    Memcpy(buf, 6, mac);
    assert buf[..6] == BROADCAST_MAC && buf[6..12] == mac;
    assert buf[..12] == BROADCAST_MAC + mac;
    WriteRequestTypes(buf);
    assert buf[..22] == buf[..12] + buf[12..22];
  }

  /** Octets 22 to 31 of the request: the sender's hardware and protocol addresses. */
  method WriteRequestSender(buf: array<Byte>, mac: Mac, ip: Ip)
    requires buf.Length == ARP_FRAME_SIZE
    modifies buf
    ensures buf[..22] == old(buf[..22])
    ensures buf[22..32] == mac + ip
  {
    Memcpy(buf, 22, mac);
    Memcpy(buf, 28, ip);
    assert buf[22..28] == mac && buf[28..32] == ip;
  }

  /** Octets 32 to 41 of the request: zero target hardware address, then the target address. */
  method WriteRequestTarget(buf: array<Byte>, target: Ip)
    requires buf.Length == ARP_FRAME_SIZE
    modifies buf
    ensures buf[..32] == old(buf[..32])
    ensures buf[32..] == ZERO_MAC + target
  {
    buf[32], buf[33], buf[34], buf[35], buf[36], buf[37] := 0, 0, 0, 0, 0, 0;
    Memcpy(buf, 38, target);
    assert buf[32..38] == ZERO_MAC && buf[38..] == target;
  }

  /** Octets 22 to 41 of the request: sender addresses, zero target hardware address, target address. */
  method WriteRequestAddresses(buf: array<Byte>, mac: Mac, ip: Ip, target: Ip)
    requires buf.Length == ARP_FRAME_SIZE
    modifies buf
    ensures buf[..22] == old(buf[..22])
    ensures buf[22..] == mac + ip + ZERO_MAC + target
  {
    WriteRequestSender(buf, mac, ip);
    ghost var upToTarget := buf[..32];
    WriteRequestTarget(buf, target);
    assert buf[..32] == upToTarget;
    assert buf[..22] == upToTarget[..22] && buf[22..32] == upToTarget[22..32];
    assert buf[22..] == buf[22..32] + buf[32..];
  }

  /** The 42 octets `process_cmd_arp` writes into `ptr`. */
  method BuildRequest(mac: Mac, ip: Ip, target: Ip) returns (ptr: seq<Byte>)
    ensures ptr == Encode(Request(mac, ip, target))
  {
    var buf := new Byte[ARP_FRAME_SIZE];
    WriteRequestHead(buf, mac);
    WriteRequestAddresses(buf, mac, ip, target);
    ptr := buf[..];
    assert ptr == buf[..22] + buf[22..];
    RequestLayout(mac, ip, target);
  }

  /** Octets 0 to 15 of the reply: Ethernet addresses, EtherType, hardware type. */
  method WriteReplyEthernet(buf: array<Byte>, mac: Mac, frame: seq<Byte>)
    requires |frame| >= ARP_FRAME_SIZE && buf.Length == |frame|
    modifies buf
    ensures buf[..16] == frame[6..12] + mac + frame[12..14] + [0, 1]
  {
    Memcpy(buf, 0, frame[6..12]);
    assert buf[..6] == frame[6..12];
    Memcpy(buf, 6, mac);
    assert buf[..12] == frame[6..12] + mac;
    ghost var addrs := buf[..12];
    Memcpy(buf, 12, frame[12..14]);
    buf[14], buf[15] := 0x00, 0x01;
    assert buf[..12] == addrs && buf[12..16] == frame[12..14] + [0, 1];
    assert buf[..16] == buf[..12] + buf[12..16];
  }

  /** Octets 16 to 41 of the reply: the frame's types and lengths, operation, sender, the frame's target. */
  method WriteReplyArp(buf: array<Byte>, mac: Mac, ip: Ip, frame: seq<Byte>)
    requires |frame| >= ARP_FRAME_SIZE && buf.Length == |frame|
    modifies buf
    ensures buf[..16] == old(buf[..16])
    ensures buf[16..ARP_FRAME_SIZE] == frame[16..21] + [2] + mac + ip + frame[32..42]
  {
    Memcpy(buf, 16, frame[16..21]);
    buf[21] := 0x02;
    assert buf[16..22] == frame[16..21] + [2];
    ghost var types := buf[16..22];
    Memcpy(buf, 22, mac);
    Memcpy(buf, 28, ip);
    assert buf[16..22] == types && buf[22..28] == mac && buf[28..32] == ip;
    assert buf[16..32] == types + mac + ip;
    ghost var sender := buf[16..32];
    Memcpy(buf, 32, frame[32..42]);
    assert buf[16..32] == sender && buf[32..ARP_FRAME_SIZE] == frame[32..42];
    assert buf[16..ARP_FRAME_SIZE] == buf[16..32] + buf[32..ARP_FRAME_SIZE];
  }

  /** The reply `parse_frame` writes into `frame2`, a buffer as long as `frame`. */
  method BuildReply(mac: Mac, ip: Ip, frame: seq<Byte>) returns (frame2: seq<Byte>)
    requires |frame| >= ARP_FRAME_SIZE
    ensures |frame2| == |frame| && frame2[..ARP_FRAME_SIZE] == ReplyHeader(mac, ip, frame)
  {
    var buf := new Byte[|frame|];
    WriteReplyEthernet(buf, mac, frame);
    WriteReplyArp(buf, mac, ip, frame);
    frame2 := buf[..];
    assert frame2[..ARP_FRAME_SIZE] == buf[..16] + buf[16..ARP_FRAME_SIZE];
  }

  class ArpTool {
    const gifc: array<Interface>
    const arpTable: array<ArpProps>
    var switchTableLength: nat
    const arpCache: array<ArpEntry>
    var cacheSize: nat
    /** Every frame handed to `forward_to` and not aborted on, in order. */
    var out: seq<Emission>

    ghost predicate Valid()
      reads this, gifc, arpTable, arpCache
    {
      arpTable.Length == ARP_TABLE_SIZE && switchTableLength <= ARP_TABLE_SIZE &&
      arpCache.Length == CACHE_SIZE && cacheSize <= CACHE_SIZE &&
      gifc.Length < 0x1_0000 && Numbered(gifc[..]) &&
      (forall k :: 0 <= k < gifc.Length ==> gifc[k].mtu == DEFAULT_MTU) &&
      (forall k :: 0 <= k < switchTableLength ==> arpTable[k].ifc.None?) &&
      (forall k :: switchTableLength <= k < ARP_TABLE_SIZE ==> arpTable[k] == BLANK_PROPS)
    }

    /** The `arpTable` entries in use. */
    ghost function ArpTable(): seq<ArpProps>
      reads this, arpTable
      requires switchTableLength <= arpTable.Length
    {
      arpTable[..switchTableLength]
    }

    /** The `arpCache` entries in use. */
    ghost function Cache(): seq<ArpEntry>
      reads this, arpCache
      requires cacheSize <= arpCache.Length
    {
      arpCache[..cacheSize]
    }

    /**
     * `main`: interface `k` from the `k`-th parsed argument, numbered `k + 1`,
     * with the zero hardware address; both tables empty.
     */
    constructor (specs: seq<IfcSpec>)
      requires |specs| < 0x1_0000
      requires forall k :: 0 <= k < |specs| ==> specs[k].mtu == DEFAULT_MTU
      ensures Valid() && fresh(gifc) && fresh(arpTable) && fresh(arpCache)
      ensures gifc[..] == seq(|specs|, k requires 0 <= k < |specs| =>
                Interface(ZERO_MAC, specs[k].ip, specs[k].netmask, specs[k].name, k + 1, specs[k].mtu))
      ensures ArpTable() == [] && Cache() == [] && out == []
    {
      gifc := new Interface[|specs|](k requires 0 <= k < |specs| =>
                Interface(ZERO_MAC, specs[k].ip, specs[k].netmask, specs[k].name, k + 1, specs[k].mtu));
      arpTable := new ArpProps[ARP_TABLE_SIZE](_ => BLANK_PROPS);
      switchTableLength := 0;
      arpCache := new ArpEntry[CACHE_SIZE](_ => ArpEntry(ZERO_MAC, [0, 0, 0, 0]));
      cacheSize := 0;
      out := [];
    }

    /** `forward_to`: a frame longer than the interface's MTU aborts; otherwise one emission. */
    method ForwardTo(dst: nat, frame: seq<Byte>) returns (aborted: bool)
      requires dst < gifc.Length
      modifies this`out
      ensures aborted <==> |frame| > gifc[dst].mtu
      ensures out == old(out) + (if aborted then [] else [Emission(gifc[dst].ifcNum, frame)])
    {
      if |frame| > gifc[dst].mtu {
        return true;
      }
      out := out + [Emission(gifc[dst].ifcNum, frame)];
      return false;
    }

    /** `addEntryToCache`: the entry goes in the next free slot. */
    method AddEntryToCache(entry: ArpEntry)
      requires Valid() && cacheSize < CACHE_SIZE
      modifies arpCache, this`cacheSize
      ensures Valid()
      ensures Cache() == old(Cache()) + [entry]
    {
      arpCache[cacheSize] := entry;
      cacheSize := cacheSize + 1;
    }

    /** `isIpInCache`: whether an entry in use holds `ip`. */
    method IsIpInCache(ip: Ip) returns (found: bool)
      requires Valid()
      ensures found <==> InCache(Cache(), ip)
    {
      var i := 0;
      while i < cacheSize
        invariant 0 <= i <= cacheSize
        invariant !InCache(arpCache[..i], ip)
      {
        if arpCache[i].ip == ip {
          assert Cache()[i] == arpCache[i];
          return true;
        }
        AddedEntryFound(arpCache[..i], arpCache[i], ip);
        assert arpCache[..i + 1] == arpCache[..i] + [arpCache[i]];
        i := i + 1;
      }
      assert arpCache[..i] == Cache();
      return false;
    }

    /**
     * The recording step of `parse_frame`: the sender as the struct reads it
     * goes in the next `arpTable` slot, with no interface attached.
     */
    method Record(frame: seq<Byte>)
      requires Valid() && |frame| >= ARP_HEADER_SIZE && switchTableLength < ARP_TABLE_SIZE
      modifies arpTable, this`switchTableLength
      ensures Valid()
      ensures ArpTable() == old(ArpTable()) + [Observed(frame)]
    {
      arpTable[switchTableLength] := arpTable[switchTableLength].(mac := frame[20..26], ip := frame[26..30]);
      switchTableLength := switchTableLength + 1;
    }

    /**
     * `parse_frame`: frames shorter than an Ethernet header are dropped;
     * every other frame is recorded, and one that asks for the interface's
     * own address (as the struct reads it) is answered on that interface.
     */
    method ParseFrame(ingress: nat, frame: seq<Byte>) returns (aborted: bool)
      requires Valid() && ingress < gifc.Length
      requires |frame| < ETHERNET_HEADER_SIZE || |frame| >= ARP_HEADER_SIZE
      requires |frame| >= ETHERNET_HEADER_SIZE ==> switchTableLength < ARP_TABLE_SIZE
      requires AnswersRequest(gifc[ingress], frame) ==> |frame| >= ARP_FRAME_SIZE
      modifies arpTable, this`switchTableLength, this`out
      ensures Valid()
      ensures ArpTable() == if |frame| < ETHERNET_HEADER_SIZE then old(ArpTable()) else old(ArpTable()) + [Observed(frame)]
      ensures aborted <==> AnswersRequest(gifc[ingress], frame) && |frame| > DEFAULT_MTU
      ensures !AnswersRequest(gifc[ingress], frame) || aborted ==> out == old(out)
      ensures AnswersRequest(gifc[ingress], frame) && !aborted ==>
                |out| == |old(out)| + 1 && out[..|old(out)|] == old(out) &&
                IsReply(gifc[ingress], frame, out[|old(out)|])
    {
      if |frame| < ETHERNET_HEADER_SIZE {
        return false;
      }
      Record(frame);
      var ifc := gifc[ingress];
      if frame[36..40] == ifc.ip && frame[18] == 0 && frame[19] == 1 {
        var frame2 := BuildReply(ifc.mac, ifc.ip, frame);
        aborted := ForwardTo(ingress, frame2);
        return;
      }
      return false;
    }

    /** `handle_frame`: an interface number past the last interface aborts. */
    method HandleFrame(interface: U16, frame: seq<Byte>) returns (aborted: bool)
      requires Valid() && 1 <= interface
      requires |frame| < ETHERNET_HEADER_SIZE || |frame| >= ARP_HEADER_SIZE
      requires |frame| >= ETHERNET_HEADER_SIZE ==> switchTableLength < ARP_TABLE_SIZE
      requires interface <= gifc.Length && AnswersRequest(gifc[interface - 1], frame) ==> |frame| >= ARP_FRAME_SIZE
      modifies arpTable, this`switchTableLength, this`out
      ensures Valid()
      ensures interface > gifc.Length ==> aborted && ArpTable() == old(ArpTable()) && out == old(out)
      ensures interface <= gifc.Length ==>
                ArpTable() == if |frame| < ETHERNET_HEADER_SIZE then old(ArpTable()) else old(ArpTable()) + [Observed(frame)]
      ensures interface <= gifc.Length ==>
                (aborted <==> AnswersRequest(gifc[interface - 1], frame) && |frame| > DEFAULT_MTU)
      ensures interface <= gifc.Length && AnswersRequest(gifc[interface - 1], frame) && !aborted ==>
                |out| == |old(out)| + 1 && out[..|old(out)|] == old(out) &&
                IsReply(gifc[interface - 1], frame, out[|old(out)|])
      ensures interface <= gifc.Length && !AnswersRequest(gifc[interface - 1], frame) ==> out == old(out)
    {
      if interface > gifc.Length {
        return true;
      }
      aborted := ParseFrame(interface - 1, frame);
    }

    /**
     * `process_cmd_arp` on the tokens after `arp` (each non-empty and free of
     * NUL, as `strtok` hands them out).
     */
    method ProcessCmdArp(args: seq<string>) returns (outcome: CmdOutcome)
      requires Valid()
      requires forall k :: 0 <= k < |args| ==> |args[k]| > 0 && '\0' !in args[k]
      modifies this`out
      ensures outcome == CmdArp(gifc[..], Cache(), args)
      ensures out == old(out) + if outcome.RequestSent? then [outcome.sent] else []
    {
      if |args| == 0 {
        return ListedCache(arpCache[..cacheSize]);
      }
      var v4 := ParseIPv4(args[0]);
      if v4.None? {
        return InvalidAddress(args[0]);
      }
      if |args| == 1 {
        return NoInterfaceGiven;
      }
      var named := FindNamed(args[1]);
      if named.None? {
        return UnknownInterface(args[1]);
      }
      var ifc := gifc[named.value];
      // `tok[0]` is never NUL here, so the MAC lookup always runs and finds `ifc` at the latest.
      var j := FindMac(ifc.mac, named.value);
      var ptr := BuildRequest(ifc.mac, ifc.ip, v4.value);
      var aborted := ForwardTo(j, ptr);
      return RequestSent(Emission(gifc[j].ifcNum, ptr));
    }

    /** The name lookup of `process_cmd_arp`: the first interface named `tok`, ignoring case. */
    method FindNamed(tok: string) returns (found: Option<nat>)
      requires Valid()
      ensures found == FirstNamed(gifc[..], tok)
    {
      var i := 0;
      while i < gifc.Length
        invariant 0 <= i <= gifc.Length
        invariant forall k :: 0 <= k < i ==> !EqualIgnoreCase(tok, gifc[k].name)
      {
        if EqualIgnoreCase(tok, gifc[i].name) {
          return Some(i);
        }
        i := i + 1;
      }
      return None;
    }

    /** The MAC lookup of `process_cmd_arp`: the first interface with address `mac`. */
    method FindMac(mac: Mac, bound: nat) returns (j: nat)
      requires bound < gifc.Length && gifc[bound].mac == mac
      ensures FirstWithMac(gifc[..], mac) == Some(j)
    {
      j := 0;
      while MemCmp(mac, gifc[j].mac) != 0
        invariant 0 <= j <= bound
        invariant forall k :: 0 <= k < j ==> gifc[k].mac != mac
        decreases bound - j
      {
        j := j + 1;
      }
    }

    /**
     * `handle_control`: the last character of the line becomes NUL, then the
     * first token selects the command.
     */
    method HandleControl(cmd: string) returns (outcome: CmdOutcome)
      requires Valid() && |cmd| >= 1 && |CommandTokens(cmd)| > 0
      modifies this`out
      ensures outcome == Control(gifc[..], Cache(), cmd)
      ensures out == old(out) + if outcome.RequestSent? then [outcome.sent] else []
    {
      var toks := CommandTokens(cmd);
      if EqualIgnoreCase(toks[0], "arp") {
        outcome := ProcessCmdArp(toks[1..]);
      } else {
        outcome := Unsupported(toks[0]);
      }
    }

    /**
     * `handle_mac`: an interface number past the last interface aborts;
     * otherwise only that interface's hardware address changes.
     */
    method HandleMac(ifcNum: U16, mac: Mac) returns (aborted: bool)
      requires Valid() && 1 <= ifcNum
      modifies gifc
      ensures Valid()
      ensures aborted <==> ifcNum > gifc.Length
      ensures aborted ==> gifc[..] == old(gifc[..])
      ensures !aborted ==> gifc[..] == old(gifc[..])[ifcNum - 1 := old(gifc[ifcNum - 1]).(mac := mac)]
    {
      if ifcNum > gifc.Length {
        return true;
      }
      gifc[ifcNum - 1] := gifc[ifcNum - 1].(mac := mac);
      return false;
    }
  }
}
