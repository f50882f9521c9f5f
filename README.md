# Link-layer tools: learning switch, VLAN switch, ARP endpoint

This project is a Dafny model of three small link-layer programs that share one
frame-handling shape. Each program receives one frame at a time, together with
the number of the interface it arrived on. It updates a fixed-capacity table
held in global arrays. It then hands zero or more frames to `forward_to`, each
for one egress interface.

- **switch.c** is a learning switch. It records a source address the first time
  it sees it (1024 entries). It sends a frame for a known destination to the
  learned interface and floods every other frame.
- **vswitch.c** is an IEEE 802.1Q VLAN switch.
  - It admits frames by their tag against the ingress port's tagged list and
    untagged VLAN.
  - It learns with re-homing (500 entries).
  - It forwards or floods, keeping, inserting or stripping the tag per port.
  - Its command-line parser reads `NAME`, `NAME[T:v,...]` and `NAME[U:v]`.
- **arp.c** is an ARP endpoint.
  - It records every sender it sees.
  - It answers requests for an interface's own address.
  - Its `arp IP IFC` command broadcasts an RFC 826 request.
  - Its command-line parser reads `NAME[IPV4:a.b.c.d/m]=MTU`.

Each program's state is a Dafny class whose fields are the C globals:

- the interface array `gifc`
- the table array and its fill counter
- `out`, the sequence of frames handed to `forward_to`

Each method's postcondition ties the new state to a pure function of the old
state and the input (`Learned`, `Emitted`, `Forwarding`, `CmdArp`). Lemmas then
prove the properties of those functions. The `Message` function gives the wire
form of each emission: a 4-octet header holding the size and the interface
number, followed by the frame.

Modules:

- `Glab`: octets, addresses, `memcmp`, `memcpy`, the transport record.
- `Text`: `strtok`, `strchr`, `strcasecmp`, `sscanf("%u")` and `inet_pton` as
  specified functions.
- `MacTable`: the two learning policies.
- `Switch`
- `VlanArgs`, `VSwitch`
- `ArpCodec`: the RFC 826 layout.
- `ArpArgs`, `Arp`

Where the code departs from what its own comments, RFC 826 and IEEE 802.1Q
lead one to expect, the model follows the code. Each such place is stated by a
lemma:

- **vswitch header size.** The VLAN switch's `struct EthernetHeader` is
  16 octets, not the 18 of an 802.1Q-tagged Ethernet header. That is the length
  below which vswitch.c drops a frame.
- **vswitch tag test.** The switch recognises a tag by octets 12–13 being
  `81 00`. It reads the VLAN id as the whole 16-bit big-endian value of
  octets 14–15, with no 12-bit mask.
- **vswitch flood tag.** A flood that inserts a tag always writes
  `81 00 00 01`, i.e. VLAN 1, whatever the VLAN of the frame
  (`VSwitch.FloodTagIsVlanOne`).
- **vswitch unicast tag insertion.** For an untagged frame whose learned
  destination port carries the frame's VLAN tagged, `parse_frame` builds the
  tagged copy. It then passes the original frame with the length
  `sizeof(frame1)`, the size of a pointer. The model takes a 64-bit host, where
  that is 8 octets. The port gets the destination address and two octets of
  the source address, untagged (`VSwitch.UnicastInsertTruncates`,
  `VSwitch.AccessToTrunkUnicastScenario`).
- **ARP struct skew.** arp.c reads the frame through a struct that lacks the
  EtherType. Every field it reads therefore sits two octets before its
  RFC 826 place (`Arp.SkewedFields`). Consequences:
  - The recorded "sender" is the operation plus part of the sender hardware
    address.
  - A well-formed Ethernet/IPv4 request is never answered
    (`Arp.WellFormedRequestUnanswered`).
  - The reply carries the request's target addresses rather than the
    requester's (`Arp.ReplyFields`).
  - The reply's operation field keeps octet 20 of the frame and sets only
    octet 21 to 2, so it is operation 2 only when octet 20 was 0
    (`Arp.ReplyFields`).
- **ARP request interface.** The request is sent on the first interface whose
  hardware address equals that of the named interface. Before any MAC
  information arrives, all interfaces share the zero address, so the request
  leaves on interface 1 (`Arp.SharedMacSendsOnFirst`).
- **`=MTU` suffix.** `parse_cmd_arg` checks the suffix and then drops it. Every
  ARP interface has an MTU of 1500.

## Model

| member | source | states |
|---|---|---|
| Glab.MemCmp | switch.c:78-80 | `maccmp`: modelled as -1, 0 or 1 (`memcmp` promises only the sign); 0 exactly when the two addresses are equal |
| Glab.Memcpy | arp.c:337-346 | `memcpy`: the source octets land at the offset and no other octet of the buffer changes |
| Glab.MessageRoundTrip | switch.c:103-121 | the record `forward_to` writes (16-bit total size `frame_size + 4`, interface number, frame) is read back as the same interface and frame while the size fits 16 bits |
| Glab.ReadMessageInverse | switch.c:103-121 | every readable record is exactly the encoding of what is read from it |
| Text.Tokens | vswitch.c:506-510 | `strtok`: every token is non-empty and holds no delimiter |
| Text.TokensOfJoin | vswitch.c:506-510 | `strtok` gives back the words joined by single delimiters |
| Text.TokensExclude | arp.c:728-730 | a character absent from the line (NUL after `cmd[cmd_len-1] = 0`) is absent from every token |
| Text.CString | arp.c:728 | the C string in a buffer is a prefix of it and holds no NUL |
| Text.ScanUnsigned | vswitch.c:583-592 | `sscanf("%u")` succeeds exactly when the text starts with a digit |
| Text.ScanUnsignedOfDecimal | vswitch.c:522-531 | `sscanf("%u")` reads back the decimal form of any number followed by a non-digit |
| Text.ParseIPv4 | arp.c:462-471 | `inet_pton`: a successful parse had exactly four dot-separated parts |
| Text.Split | arp.c:462-465 | the parts of a text split at a delimiter, joined again by that delimiter, give the text back |
| Text.IsOctet | arp.c:462-465 | an `inet_pton` address part is one to three digits without a leading zero, of value at most 255, and it is the decimal form of its value |
| Text.DecimalOfValue | arp.c:462-465 | a digit string without a leading zero is the decimal form of its value |
| Text.FormatParseIPv4 | arp.c:462-465 | every text `inet_pton` accepts is the dotted-quad form of the address it yields |
| Text.JoinExcludes | arp.c:730-732 | words free of a character, joined by another, are free of it |
| Text.ParseFormatIPv4 | arp.c:462-471 | `inet_pton` reads back the dotted-quad form of every address |
| MacTable.FirstMatch | switch.c:160-166 | the lookup finds the first entry for the address, and finds none exactly when the address is unknown |
| MacTable.LearnFirstSighting | switch.c:146-158 | an unknown address is appended while there is room; otherwise the table is unchanged; existing entries never change; capacity respected; addresses stay distinct |
| MacTable.Rehome | vswitch.c:272-278 | every entry for the source now names the ingress interface; all other entries are unchanged |
| MacTable.LearnRehoming | vswitch.c:272-285 | every entry for the source names the ingress interface; an unknown source is appended while there is room; other entries unchanged; capacity respected; addresses stay distinct |
| MacTable.FirstSightingIsFinal | switch.c:146-158 | over any run of frames, entries are only appended, never changed; the table stays within capacity and distinct |
| MacTable.RepeatedSightingOneEntry | switch.c:146-158 | one address seen any number of times on one interface ends up in exactly one entry |
| MacTable.RehomingKeepsOthers | vswitch.c:272-285 | a sighting of another address leaves an address's binding as it was |
| MacTable.LearnAllRehomingSnoc | vswitch.c:272-285 | learning a run of sightings and then one more is learning the longer run |
| MacTable.OthersKeepBinding | vswitch.c:272-285 | any run of sightings of other addresses leaves an address's binding as it was |
| MacTable.LatestSightingWins | vswitch.c:272-285 | after any run of frames an address is bound to the interface of its latest sighting |
| Switch.Flood | switch.c:168-175 | at most one copy per interface, each the unchanged frame |
| Switch.Forwarding | switch.c:160-175 | unchanged copies, no more than there are interfaces, and exactly one when the destination is known |
| Switch.Learned | switch.c:146-158 | the table is unchanged or gains the source on the ingress interface at its end; addresses stay distinct |
| Switch.Emitted | switch.c:132-176 | no more emissions than interfaces, each the unchanged frame (one per interface at most: `Switch.EmittedCopies`) |
| Switch.FloodMembers | switch.c:168-175 | a flood emits an unchanged copy to an interface iff its address differs from the ingress address |
| Switch.FloodAscending | switch.c:168-175 | flood emissions go out in strictly ascending interface order, at most one per interface |
| Switch.FloodSkipsIngress | switch.c:168-175 | a flood never goes back out on the ingress interface |
| Switch.EmittedCopies | switch.c:132-176 | a frame yields no two emissions for the same interface, every one an unchanged copy to an existing interface |
| Switch.HitCanReturnToIngress | switch.c:160-166 | a hit sends the frame to the learned interface even when that is the ingress interface (no ingress check) |
| Switch.Switch.constructor | switch.c:242-255 | interfaces numbered from 1 with the zero address; empty table; nothing sent |
| Switch.Switch.ForwardTo | switch.c:103-121 | `forward_to` appends one emission for the destination's interface number |
| Switch.Switch.SourceKnown | switch.c:146-153 | the first loop of `parse_frame` finds the source iff it is in the table |
| Switch.Switch.Learn | switch.c:154-158 | the table after learning is `LearnFirstSighting` of the old table |
| Switch.Switch.Forward | switch.c:160-175 | the emissions are `Forwarding`: one copy to the first matching entry's interface, else the flood |
| Switch.Switch.ParseFrame | switch.c:132-176 | short frames change nothing; otherwise the table is `Learned` and the emissions are `Emitted` from the old table |
| Switch.Switch.HandleFrame | switch.c:187-196 | aborts iff the interface number exceeds the interface count; otherwise `parse_frame` on interface `n - 1` |
| Switch.Switch.HandleMac | switch.c:222-228 | aborts iff the number exceeds the interface count; otherwise only that interface's address changes |
| VlanArgs.ScanTags | vswitch.c:505-543 | a successful tag list keeps the stored ids, adds one per token and holds only ids of at most 4092 |
| VlanArgs.ParseTagged | vswitch.c:482-546 | the array-and-`pos` loop of `parse_tagged` computes `TaggedSpec`, the token scan over the text after `:` (well-formedness of its result is `TaggedSpecWellFormed`) |
| VlanArgs.ParseUntagged | vswitch.c:560-605 | `parse_untagged` succeeds iff a `:` is followed by a number ≤ 4092, and yields that id |
| VlanArgs.TaggedSpec | vswitch.c:482-546 | a parsed tagged list starts after a `:`, holds one id per comma-separated token and ends in `NO_VLAN` |
| VlanArgs.VlanArgsSpec | vswitch.c:617-677 | `parse_vlan_args`: the name is a prefix of the argument with no `[` in it; `[` without `]` fails |
| VlanArgs.VlanArgsSpecOf | vswitch.c:626-677 | on `NAME[L:BODY]`, `T` parses `:BODY` as a tagged list, `U` as an untagged id, any other letter fails |
| VlanArgs.TaggedSpecWellFormed | vswitch.c:541-543 | a parsed tagged list is `NO_VLAN`-terminated, with valid ids and no `NO_VLAN` before the end |
| VlanArgs.VlanArgsWellFormed | vswitch.c:617-677 | every accepted specification is an access port or a trunk port, never both |
| VlanArgs.ScanTagsOfDecimals | vswitch.c:505-543 | the decimal forms of valid ids, comma-separated, are read back as those ids |
| VlanArgs.BracketsOf | vswitch.c:626-656 | in `NAME[L:BODY]` the first `[` ends the name and the first `]` after it ends the body |
| VlanArgs.TaggedSpecOfDecimals | vswitch.c:482-546 | `:` followed by the comma-separated decimal forms of valid ids parses to those ids, terminated |
| VlanArgs.UntaggedOfDecimal | vswitch.c:560-605 | `:` followed by the decimal form of a valid id parses to that id |
| VlanArgs.ParseFormatTagged | vswitch.c:482-546 | `NAME[T:v1,...]` parses back to the name and the terminated list |
| VlanArgs.ParseFormatUntagged | vswitch.c:560-605 | `NAME[U:v]` parses back to the name and the untagged id |
| VlanArgs.ParseFormatVlanArgs | vswitch.c:617-677 | every well-formed specification is parsed back from its formatted form |
| VSwitch.IsTagged | vswitch.c:255 | a frame is tagged iff it has octets 12–13 and they are the 802.1Q tag protocol identifier `81 00` |
| VSwitch.VlanId | vswitch.c:237 | the VLAN id is octets 14–15 read big-endian, the whole 16 bits |
| VSwitch.Admitted | vswitch.c:255-270 | an admitted frame is tagged exactly when the ingress port has no untagged VLAN |
| VSwitch.Egress | vswitch.c:291-413 | a port gets a copy iff the frame's VLAN (its tag, or the ingress port's untagged VLAN) is the port's untagged VLAN or in its tagged list |
| VSwitch.EgressTo | vswitch.c:291-413 | at most one emission, present iff the egress rule yields a copy, and addressed to the destination port's number |
| VSwitch.Flood | vswitch.c:340-417 | the flood emits no more copies than there are interfaces (one per interface at most: `VSwitch.FloodAscending`) |
| VSwitch.Forwarding | vswitch.c:291-417 | no more emissions than interfaces, and at most one in all when the destination is known |
| VSwitch.Learned | vswitch.c:272-285 | learning adds at most one entry, stays within 500 entries, and keeps addresses distinct and interfaces in range |
| VSwitch.Emitted | vswitch.c:219-418 | a frame yields no more emissions than there are interfaces (one per interface at most: `VSwitch.EmittedDistinct`) |
| VSwitch.TerminatorIndex | vswitch.c:256-260 | the first `NO_VLAN` in a terminated list |
| VSwitch.ListsVlan | vswitch.c:256-260 | the terminated-list scan finds `v` iff `v` is listed before the terminator (a `NO_VLAN` argument matches the terminator itself) |
| VSwitch.StripTag | vswitch.c:295-299 | stripping removes the 4 tag octets (intent of the overrunning copy) |
| VSwitch.InsertTag | vswitch.c:326-331 | inserting adds 4 octets after the addresses |
| VSwitch.StripInsertedTag | vswitch.c:326-331 | stripping an inserted tag gives the frame back |
| VSwitch.InsertStrippedTag | vswitch.c:295-299 | re-inserting a stripped tag gives the tagged frame back |
| VSwitch.FloodTagIsVlanOne | vswitch.c:396-399 | the flood tag `81 00 00 01` reads as VLAN 1 and strips back to the frame |
| VSwitch.EgressTagging | vswitch.c:291-413 | a port gets a copy iff it is a member of the frame's VLAN; except in the unicast insertion branch, the copy is tagged iff the VLAN is not the port's untagged VLAN, and it is 4 octets longer or shorter exactly when the tagging changed |
| VSwitch.TaggedKeepsVlan | vswitch.c:302-310 | a tagged frame that leaves tagged leaves unchanged |
| VSwitch.UnicastInsertTruncates | vswitch.c:313-334 | for an untagged frame to a learned port that carries its VLAN tagged, the unicast copy is the first 8 octets of the frame, untagged, where the flood copy for the same port is the whole frame with the tag inserted |
| VSwitch.FloodStep | vswitch.c:340-417 | one more interface extends the flood by exactly that interface's copy, if its address differs from the ingress address |
| VSwitch.FloodCopyOf | vswitch.c:340-413 | the copy one port adds to the flood is `e` exactly when that port's address differs from the ingress address and its egress rule yields `e` |
| VSwitch.ServedSplit | vswitch.c:340-417 | a port of a list is served by the flood iff one of its first ports or its last one is |
| VSwitch.FloodMembers | vswitch.c:340-417 | a flood emits `e` iff some interface numbered `e.ifcNum` has an address other than the ingress address and its egress rule yields exactly `e`'s frame |
| VSwitch.AscendingAppend | vswitch.c:340-417 | appending at most one copy for interface `n` to copies for lower interfaces keeps them in strictly ascending interface order |
| VSwitch.FloodAscending | vswitch.c:340-417 | with interfaces numbered 1, 2, ... the flood's copies go to existing interfaces in strictly ascending order, so at most one per interface |
| VSwitch.EmittedDistinct | vswitch.c:219-418 | whatever `parse_frame` emits goes to existing interfaces in strictly ascending order, so no interface gets two copies |
| VSwitch.FloodSkipsIngressAddress | vswitch.c:340-341 | no flood copy goes to an interface that shares the ingress address |
| VSwitch.HitEmitsAtMostOne | vswitch.c:291-338 | a destination hit produces at most one emission, to the first matching entry's interface, and no flood |
| VSwitch.FloodOfTwo | vswitch.c:340-417 | a flood over two ports is the first port's copy followed by the second's, each only if its address differs from the ingress address |
| VSwitch.AccessToTrunkScenario | vswitch.c:374-413 | an untagged broadcast from an access port of VLAN 10 reaches a trunk carrying VLAN 10 with the tag `81 00 00 01` inserted |
| VSwitch.TrunkToAccessScenario | vswitch.c:342-372 | a frame tagged VLAN 20 from a trunk is admitted there and not sent to an access port of VLAN 10 |
| VSwitch.AccessToTrunkUnicastScenario | vswitch.c:291-338 | an untagged frame from an access port of VLAN 10 to a host learned on a trunk carrying VLAN 10 reaches the trunk as the first 8 octets of the frame, untagged |
| VSwitch.VSwitch.constructor | vswitch.c:691-711 | one interface per parsed specification, numbered from 1, zero address; empty table |
| VSwitch.VSwitch.ForwardTo | vswitch.c:143-161 | `forward_to` appends one emission |
| VSwitch.VSwitch.Admit | vswitch.c:255-270 | a tagged frame is admitted iff its VLAN is in the tagged list and the port has no untagged VLAN; an untagged frame iff the port has one |
| VSwitch.VSwitch.RehomeEntries | vswitch.c:272-278 | the table in use becomes `Rehome` of the old one, the answer says whether the source was known, and the unused slots are untouched |
| VSwitch.VSwitch.Learn | vswitch.c:272-285 | the table after learning is `LearnRehoming` of the old table |
| VSwitch.VSwitch.SendEgress | vswitch.c:291-413 | one port's emissions are `EgressTo`: nothing, the unchanged frame, the stripped frame, the frame with the flood tag inserted, or (unicast insertion) its first 8 octets |
| VSwitch.VSwitch.Lookup | vswitch.c:291-292 | the lookup loop finds the first entry in use for the destination, or none iff there is none |
| VSwitch.VSwitch.FloodFrame | vswitch.c:340-417 | the flooding loop emits exactly `Flood` of the interfaces |
| VSwitch.VSwitch.Forward | vswitch.c:291-417 | the emissions are `Forwarding`: the unicast egress to the first matching entry, else the flood |
| VSwitch.VSwitch.ParseFrame | vswitch.c:219-418 | a short or non-admitted frame changes nothing; otherwise the table is `Learned` and the emissions are `Emitted` |
| VSwitch.VSwitch.HandleFrame | vswitch.c:429-438 | aborts iff the interface number exceeds the interface count; otherwise `parse_frame` |
| VSwitch.VSwitch.HandleMac | vswitch.c:463-469 | aborts iff the number exceeds the interface count; otherwise only that interface's address changes |
| VSwitch.WithoutTag | vswitch.c:295-299 | the buffer built by the copies is the frame with its tag removed |
| VSwitch.WithTag | vswitch.c:322-331 | the buffer built by the copies is the frame with the tag inserted after the addresses |
| ArpCodec.Encode | arp.c:507-552 | an ARP packet for Ethernet and IPv4 is 42 octets |
| ArpCodec.DecodeEncode | arp.c:507-552 | every packet is read back from its encoding |
| ArpCodec.EncodeDecodeHead | arp.c:510-529 | the Ethernet header and the two type fields read from a frame re-encode to its octets 0 to 17 |
| ArpCodec.EncodeDecodeTail | arp.c:531-552 | the lengths, operation and addresses read from a frame re-encode to its octets 18 to 41 |
| ArpCodec.EncodeDecode | arp.c:507-552 | the first 42 octets of any frame are the encoding of the packet read from it |
| ArpCodec.Request | arp.c:507-552 | the broadcast request has the Ethernet/IPv4 types and lengths of RFC 826 |
| ArpArgs.NetmaskValue | arp.c:646 | the netmask expression fits in 32 bits |
| ArpArgs.NetmaskIsPrefix | arp.c:646 | the netmask of prefix length `m` is the sum of the `m` highest of 32 bits |
| ArpArgs.NetmaskExamples | arp.c:646 | /0, /8, /24 and /32 give 0.0.0.0, 255.0.0.0, 255.255.255.0 and 255.255.255.255 in network order |
| ArpArgs.ParseNetwork | arp.c:589-648 | success needs an `IPV4:` prefix in any case and a `/`, and the netmask is a prefix mask of length at most 32 |
| ArpArgs.ParseFormatNetwork | arp.c:589-648 | `IPV4:a.b.c.d/m` parses to the address and the mask of length `m`, or fails as too large when `m > 32` |
| ArpArgs.LowerCasePrefixAccepted | arp.c:596-606 | the `IPV4:` prefix is matched without regard to case |
| ArpArgs.ParseCmdArg | arp.c:660-715 | a successful parse always has MTU 1500, and the name is everything before the first `[` |
| ArpArgs.WithMtu | arp.c:694-714 | after the `]`, any accepted suffix gives MTU 1500 with the parsed name, address and netmask |
| ArpArgs.BracketsOf | arp.c:667-685 | in `NAME[NET]SUFFIX` the first `[` ends the name, the first `]` after it ends the network text, and the suffix follows |
| ArpArgs.ParseCmdArgOf | arp.c:660-715 | `parse_cmd_arg` on `NAME[NET]SUFFIX` is the network parse of `NET`, then the suffix check |
| ArpArgs.FormattedNetworkUnbracketed | arp.c:677-685 | the text of a formatted network holds no `]` |
| ArpArgs.ParseFormatCmdArg | arp.c:660-715 | `NAME[IPV4:a.b.c.d/m]` parses back to its fields with MTU 1500; a suffix `=N` fails when `N < 400` and is otherwise ignored |
| Arp.Observed | arp.c:330-332 | the recorded entry carries no interface |
| Arp.ReplyHeader | arp.c:336-346 | the reply header is 42 octets (its fields are `Arp.ReplyFields`) |
| Arp.SkewedFields | arp.c:50-99 | the struct's `oper` is the RFC 826 address lengths; its `sender_ha`, `sender_pa` and `target_pa` straddle the RFC 826 fields two octets later |
| Arp.AnsweredPackets | arp.c:334 | a frame is answered iff, read as RFC 826, its address lengths are 0 and 1 and the octets straddling the target addresses spell the interface's address |
| Arp.WellFormedRequestUnanswered | arp.c:334 | a request with the RFC 826 lengths for Ethernet and IPv4 is never answered, whatever its padding |
| Arp.AnswersRequest | arp.c:334 | no frame that reads as an Ethernet/IPv4 packet under RFC 826 is answered |
| Arp.IsReply | arp.c:335-346 | a reply is at least 42 octets, addressed to the frame's source and sent from the interface's address |
| Arp.ReplyFields | arp.c:336-346 | the reply read as RFC 826 is addressed to the frame's sender, from the interface; hardware type 1; EtherType, protocol type and address lengths copied from the frame; operation = octet 20 of the frame · 256 + 2 (2 only when that octet is 0); sender the interface; target addresses those of the frame |
| Arp.FirstNamed | arp.c:479-495 | the first interface whose name matches case-insensitively, or none iff no name matches |
| Arp.FirstWithMac | arp.c:505-506 | the first interface with the given hardware address, or none iff no interface has it |
| Arp.CommandTokens | arp.c:728-730 | the command's tokens are non-empty and hold no NUL |
| Arp.CmdArp | arp.c:450-563 | no arguments lists the cache; a request is sent iff the address parses and the name is an interface's, and it is a 42-octet broadcast |
| Arp.Control | arp.c:725-740 | a command is unsupported iff its first token is not `arp` in any case |
| Arp.ControlOfLine | arp.c:725-740 | a line of words ending in a newline is split back into those words; `arp` in any case runs the ARP command on the rest, any other first word is unsupported |
| Arp.ArpCommandRequests | arp.c:450-563 | `arp A N` for a known name sends the broadcast request for `A` from the named interface, on the first interface with its hardware address |
| Arp.RequestOnNamedInterface | arp.c:505-561 | when no two interfaces share a hardware address the request goes out on the named interface |
| Arp.SharedMacSendsOnFirst | arp.c:505-561 | with all interfaces still at the zero address a request for eth1 leaves on interface 1 |
| Arp.AddedEntryFound | arp.c:248-260 | after adding an entry, an address is in the cache iff it was before or is the entry's |
| Arp.RequestLayout | arp.c:507-552 | the request's octets: broadcast, source, `08 06 00 01 08 00 06 04 00 01`, sender addresses, zero target hardware address, target address |
| Arp.WriteRequestTypes | arp.c:519-538 | octets 12 to 21 of `ptr` are `08 06 00 01 08 00 06 04 00 01` and octets 0 to 11 are untouched |
| Arp.WriteRequestHead | arp.c:507-538 | octets 0 to 21 of `ptr` are the broadcast address, the source and the fixed fields |
| Arp.WriteRequestSender | arp.c:540-542 | octets 22 to 31 of `ptr` are the sender addresses and octets 0 to 21 are untouched |
| Arp.WriteRequestTarget | arp.c:544-552 | octets 32 to 41 of `ptr` are the zero hardware address and the target address and octets 0 to 31 are untouched |
| Arp.WriteRequestAddresses | arp.c:540-552 | octets 22 to 41 of `ptr` after the stores, the others untouched |
| Arp.BuildRequest | arp.c:507-552 | the buffer `process_cmd_arp` fills is the RFC 826 encoding of the request |
| Arp.WriteReplyEthernet | arp.c:337-341 | octets 0 to 15 of the reply: the frame's source, the interface address, the frame's EtherType, hardware type 1 |
| Arp.WriteReplyArp | arp.c:342-346 | octets 16 to 41 of the reply: the frame's octets 16–20, octet 21 set to 2, the interface's addresses, the frame's octets 32–41; octets 0 to 15 untouched |
| Arp.BuildReply | arp.c:335-346 | the reply buffer is as long as the frame and its first 42 octets are `ReplyHeader` |
| Arp.ArpTool.constructor | arp.c:770-788 | one interface per parsed argument, numbered from 1, zero address, MTU 1500; both tables empty |
| Arp.ArpTool.ForwardTo | arp.c:198-218 | aborts iff the frame is longer than the interface's MTU; otherwise appends one emission |
| Arp.ArpTool.AddEntryToCache | arp.c:248-251 | the cache gains the entry at the end |
| Arp.ArpTool.IsIpInCache | arp.c:253-260 | true iff an entry in use holds the address |
| Arp.ArpTool.Record | arp.c:330-332 | the table gains the struct's sender fields at the end, with no interface |
| Arp.ArpTool.ParseFrame | arp.c:286-358 | short frames change nothing; every other frame is recorded; a frame that `AnswersRequest` is answered with one reply on the ingress interface, or aborts when longer than the MTU; no other frame is answered |
| Arp.ArpTool.HandleFrame | arp.c:434-443 | aborts when the interface number exceeds the interface count; otherwise `parse_frame` on interface `n - 1` |
| Arp.ArpTool.FindNamed | arp.c:479-495 | the name loop finds `FirstNamed`: the first interface named the token, ignoring case |
| Arp.ArpTool.FindMac | arp.c:505-506 | the MAC loop stops at `FirstWithMac`, the first interface with the address |
| Arp.ArpTool.ProcessCmdArp | arp.c:450-563 | the outcome is `CmdArp`: list the cache, reject a bad address or a missing or unknown interface, or send exactly the one request |
| Arp.ArpTool.HandleControl | arp.c:725-740 | `arp` in any case runs the ARP command on the remaining tokens; any other first token is unsupported and sends nothing |
| Arp.ArpTool.HandleMac | arp.c:750-756 | aborts iff the number exceeds the interface count; otherwise only that interface's hardware address changes |

## Left out

- `loop.c`, `write_all` and standard output are not part of this model. `forward_to` is an append to `out`; the octets it would write are `Glab.Message`.
- `main` of each tool is modelled only as the class constructor. It takes the already parsed interface specifications, and a failed parse aborts.
- Diagnostics and hex dumps are left out. These are `fprintf`/`print`, `print_frame`, `print_mac`, `print_ip` and the formatting in `printArpCache`. The listing itself is the `ListedCache` outcome.
- `handle_control` of switch.c and vswitch.c only logs the command.
- The commented-out ARP cache path after the reply in arp.c is dead code.
- The table dump at the end of `process_cmd_arp` is unreachable: the interface loop always matches the named interface itself and returns. `tok[0]` is never NUL for a token `strtok` returns.
- Text.ScanUnsigned: `sscanf("%u")` is modelled as a run of leading digits read as an unbounded number. Leading white space, a sign and the wrap-around of values beyond 32 bits are not modelled.
- `strdup`/`strndup` failure is not modelled.
- VSwitch.Egress: the length `sizeof(frame1)` of the unicast insertion branch is taken as 8, the size of a pointer on a 64-bit host.
- Integer widths:
  - The `(int16_t)` casts of VLAN ids are identities for ids of at most 4092.
  - Interface numbers are below 65536 (constructor precondition).
- The `oper == 0x0100` test and the `struct Q` stores assume a little-endian host. They are modelled as the octet patterns such a host produces.
- Undefined-behaviour copies are modelled by their evident intent. Length preconditions exclude the overruns.
  - vswitch.c `parse_frame` strips a tag by copying from `&frame1` (the pointer itself) and copies four octets too many. The model uses octets 0–11 followed by octets 16 onwards.
  - The flood strip overruns its buffer by four octets. The model uses the stripped frame.
- Arp.ArpTool.ParseFrame requires frames of at least 40 octets once they pass the 14-octet check: `parse_frame` reads up to octet 39 without checking. It requires 42 when the reply fires, because the reply writes 42 octets. It also requires room in `arpTable`, which has no bound check in the source.
- Arp.BuildReply: octets 42 onwards of the reply buffer are never written in the source. The model leaves them unspecified.
- VSwitch.VSwitch.constructor / VlanArgs.VlanArgsSpec: `parse_vlan_args`, `parse_tagged` and `parse_untagged` write the fields of the interface being set up. The model returns those fields as a `VlanSpec` value, which the constructor installs.
- ArpArgs.ParseNetwork / ArpArgs.ParseCmdArg: `parse_network` and `parse_cmd_arg` write the fields of the interface being set up. The model returns them as a value; on failure `main` aborts, so the partial writes are never observed.
- Arp.ArpTool.HandleControl requires a first token. `strcasecmp` on the NULL token of an empty line is undefined.
- Switch.Switch.HandleFrame, VSwitch.VSwitch.HandleFrame and Arp.ArpTool.HandleFrame require an interface number of at least 1. Number 0 would index `gifc[-1]`.
- Switch.Switch.HandleMac, VSwitch.VSwitch.HandleMac and Arp.ArpTool.HandleMac require an interface number of at least 1. Number 0 would write `gifc[-1]` (switch.c:227, vswitch.c:468, arp.c:755).
