/**
 * The interface specifications the ARP tool is started with,
 * `IFCNAME[IPV4:IP/NETMASK]=MTU` with the `=MTU` optional, as arp.c's
 * `parse_cmd_arg` and `parse_network` read them. Arguments are C strings:
 * they hold no NUL.
 */
module ArpArgs {
  import opened Glab
  import opened Text

  /** The MTU every interface gets (a given `=MTU` is checked, then dropped). */
  const DEFAULT_MTU := 1500

  /** Smallest `=MTU` value accepted. */
  const MIN_MTU := 400

  const TWO_TO_32 := 0x1_0000_0000

  /** Why `parse_network` refuses a network specification. */
  datatype NetworkError =
    | NotIpv4
    | LacksSlash
    | MalformedIp
    | MalformedNetmask
    | NetmaskTooLarge

  /** Why `parse_cmd_arg` refuses an interface specification. */
  datatype ArgError =
    | LacksOpenBracket
    | LacksCloseBracket
    | BadNetwork(cause: NetworkError)
    | MtuNotANumber
    | MtuTooSmall

  /** Address and netmask, both in network byte order. */
  datatype Network = Network(ip: Ip, netmask: Ip)

  /** The `struct Interface` fields `parse_cmd_arg` fills in. */
  datatype IfcSpec = IfcSpec(name: string, ip: Ip, netmask: Ip, mtu: nat)

  function Pow2(n: nat): (r: nat)
    ensures r >= 1
  {
    if n == 0 then 1 else 2 * Pow2(n - 1)
  }

  lemma {:induction false} Pow2Add(m: nat, n: nat)
    ensures Pow2(m + n) == Pow2(m) * Pow2(n)
    decreases n
  {
    if n > 0 {
      Pow2Add(m, n - 1);
    }
  }

  lemma Pow2Values()
    ensures Pow2(8) == 256 && Pow2(16) == 0x1_0000 && Pow2(24) == 0x100_0000 && Pow2(32) == TWO_TO_32
  {
    assert Pow2(4) == 16;
    Pow2Add(4, 4);
    Pow2Add(8, 8);
    Pow2Add(16, 8);
    Pow2Add(16, 16);
  }

  lemma Pow2Monotone(m: nat, n: nat)
    requires m <= n
    ensures Pow2(m) <= Pow2(n)
    decreases n
  {
  }

  /** `~(uint32_t)((1 << (32 - mask)) - 1)`: 32 bits with the low `32 - mask` cleared. */
  function NetmaskValue(mask: nat): (r: nat)
    requires mask <= 32
    ensures r < TWO_TO_32
  {
    Pow2Values();
    Pow2Monotone(32 - mask, 32);
    Pow2(32) - Pow2(32 - mask)
  }

  /** The four octets of `n`, most significant first, as `htonl` stores them. */
  function Be32(n: nat): (r: Ip)
    requires n < TWO_TO_32
  {
    [n / 0x100_0000, (n / 0x1_0000) % 256, (n / 256) % 256, n % 256]
  }

  /** The netmask of prefix length `mask`, in network byte order. */
  function Netmask(mask: nat): Ip
    requires mask <= 32
  {
    Be32(NetmaskValue(mask))
  }

  /** Reference definition of a prefix mask: the sum of the `m` highest of 32 bits. */
  function PrefixMaskValue(m: nat): nat
    requires m <= 32
  {
    if m == 0 then 0 else PrefixMaskValue(m - 1) + Pow2(32 - m)
  }

  /** The C expression sets exactly the `mask` highest bits. */
  lemma {:induction false} NetmaskIsPrefix(mask: nat)
    requires mask <= 32
    ensures NetmaskValue(mask) == PrefixMaskValue(mask)
  {
    if mask > 0 {
      NetmaskIsPrefix(mask - 1);
      assert Pow2(32 - (mask - 1)) == 2 * Pow2(32 - mask);
    }
  }

  /** The ends and a common middle of the range: /0, /8, /24 and /32. */
  lemma NetmaskExamples()
    ensures Netmask(0) == [0, 0, 0, 0]
    ensures Netmask(8) == [255, 0, 0, 0]
    ensures Netmask(24) == [255, 255, 255, 0]
    ensures Netmask(32) == [255, 255, 255, 255]
  {
    Pow2Values();
    assert Netmask(0) == [0, 0, 0, 0] by {
      assert NetmaskValue(0) == 0;
    }
    assert Netmask(8) == [255, 0, 0, 0] by {
      assert NetmaskValue(8) == 0xFF00_0000;
    }
    assert Netmask(24) == [255, 255, 255, 0] by {
      assert NetmaskValue(24) == 0xFFFF_FF00;
    }
    assert Netmask(32) == [255, 255, 255, 255] by {
      assert NetmaskValue(32) == 0xFFFF_FFFF;
    }
  }

  /**
   * `parse_network`: `IPV4:` in any case, a dotted-quad address up to the
   * first `/`, then a prefix length of at most 32.
   */
  function ParseNetwork(net: string): (r: Result<Network, NetworkError>)
    ensures r.Ok? ==> HasPrefixIgnoreCase(net, "IPV4:") && '/' in net
    ensures r.Ok? ==> exists mask :: 0 <= mask <= 32 && r.value.netmask == Netmask(mask)
  {
    if !HasPrefixIgnoreCase(net, "IPV4:") then Err(NotIpv4)
    else
      var rest := net[5..];
      match IndexOf(rest, '/')
      case None => Err(LacksSlash)
      case Some(slash) =>
        match ParseIPv4(rest[..slash])
        case None => Err(MalformedIp)
        case Some(ip) =>
          match ScanUnsigned(rest[slash + 1..])
          case None => Err(MalformedNetmask)
          case Some(mask) =>
            if mask > 32 then Err(NetmaskTooLarge)
            else Ok(Network(ip, Netmask(mask)))
  }

  /**
   * `parse_cmd_arg`: the name is everything before the first `[`, the network
   * everything between it and the next `]`; an `=` right after the `]` must be
   * followed by a number of at least 400, which is then not used: the MTU is
   * always 1500.
   */
  function ParseCmdArg(arg: string): (r: Result<IfcSpec, ArgError>)
    ensures r.Ok? ==> r.value.mtu == DEFAULT_MTU
    ensures r.Ok? ==> |r.value.name| < |arg| && arg[|r.value.name|] == '[' &&
                      arg[..|r.value.name|] == r.value.name && '[' !in r.value.name
  {
    match IndexOf(arg, '[')
    case None => Err(LacksOpenBracket)
    case Some(open) =>
      var name := arg[..open];
      var rest := arg[open + 1..];
      match IndexOf(rest, ']')
      case None => Err(LacksCloseBracket)
      case Some(close) =>
        match ParseNetwork(rest[..close])
        case Err(e) => Err(BadNetwork(e))
        case Ok(n) => WithMtu(name, n, rest[close + 1..])
  }

  /**
   * What follows the `]`: an `=` must be followed by a number of at least
   * 400, which is not used; the interface gets MTU 1500 either way.
   */
  function WithMtu(name: string, n: Network, after: string): (r: Result<IfcSpec, ArgError>)
    ensures r.Ok? ==> r.value == IfcSpec(name, n.ip, n.netmask, DEFAULT_MTU)
  {
    if |after| > 0 && after[0] == '=' then
      match ScanUnsigned(after[1..])
      case None => Err(MtuNotANumber)
      case Some(mtu) =>
        if mtu < MIN_MTU then Err(MtuTooSmall)
        else Ok(IfcSpec(name, n.ip, n.netmask, DEFAULT_MTU))
    else Ok(IfcSpec(name, n.ip, n.netmask, DEFAULT_MTU))
  }

  /** The network specification of `ip` with prefix length `mask`. */
  function FormatNetwork(ip: Ip, mask: nat): string
  {
    "IPV4:" + FormatIPv4(ip) + "/" + Decimal(mask)
  }

  /** An interface specification, with or without the `=MTU` suffix. */
  function FormatCmdArg(name: string, ip: Ip, mask: nat, mtu: Option<nat>): string
  {
    name + "[" + FormatNetwork(ip, mask) + "]" +
    match mtu
    case None => ""
    case Some(m) => "=" + Decimal(m)
  }

  lemma FormattedIPv4Digits(ip: Ip)
    ensures '/' !in FormatIPv4(ip) && ']' !in FormatIPv4(ip)
  {
    var ds := [Decimal(ip[0]), Decimal(ip[1]), Decimal(ip[2]), Decimal(ip[3])];
    JoinOfDigits(ds, '.', '/');
    JoinOfDigits(ds, '.', ']');
  }

  /** Formatting a network and parsing it gives back the address and the prefix mask. */
  lemma ParseFormatNetwork(ip: Ip, mask: nat)
    ensures ParseNetwork(FormatNetwork(ip, mask)) ==
            if mask <= 32 then Ok(Network(ip, Netmask(mask))) else Err(NetmaskTooLarge)
  {
    var a := FormatIPv4(ip);
    var net := FormatNetwork(ip, mask);
    assert net[..5] == "IPV4:";
    var rest := net[5..];
    assert rest == a + "/" + Decimal(mask);
    FormattedIPv4Digits(ip);
    IndexOfAt(rest, '/', |a|);
    assert rest[..|a|] == a;
    ParseFormatIPv4(ip);
    ScanUnsignedOfDecimal(mask, "");
    assert rest[|a| + 1..] == Decimal(mask) + "";
  }

  /** The prefix is matched without regard to case. */
  lemma LowerCasePrefixAccepted(s: string)
    ensures ParseNetwork("ipv4:" + s) == ParseNetwork("IPV4:" + s)
  {
    assert ("ipv4:" + s)[5..] == s;
    assert ("IPV4:" + s)[5..] == s;
    assert HasPrefixIgnoreCase("ipv4:" + s, "IPV4:") by {
      assert ("ipv4:" + s)[..5] == "ipv4:";
    }
    assert HasPrefixIgnoreCase("IPV4:" + s, "IPV4:") by {
      assert ("IPV4:" + s)[..5] == "IPV4:";
    }
  }

  /** Where `parse_cmd_arg` finds the brackets of `name[net]suffix`. */
  lemma BracketsOf(name: string, net: string, suffix: string)
    requires '[' !in name && ']' !in net
    ensures var arg := name + "[" + net + "]" + suffix;
            var rest := arg[|name| + 1..];
            IndexOf(arg, '[') == Some(|name|) && arg[..|name|] == name &&
            IndexOf(rest, ']') == Some(|net|) && rest[..|net|] == net && rest[|net| + 1..] == suffix
  {
    var arg := name + "[" + net + "]" + suffix;
    assert arg[..|name|] == name;
    IndexOfAt(arg, '[', |name|);
    var rest := arg[|name| + 1..];
    assert rest == net + "]" + suffix;
    assert rest[..|net|] == net;
    IndexOfAt(rest, ']', |net|);
  }

  /** `parse_cmd_arg` on `name[net]suffix`: the network, then the suffix. */
  lemma ParseCmdArgOf(name: string, net: string, suffix: string)
    requires '[' !in name && ']' !in net
    ensures ParseCmdArg(name + "[" + net + "]" + suffix) ==
            match ParseNetwork(net)
            case Err(e) => Err(BadNetwork(e))
            case Ok(n) => WithMtu(name, n, suffix)
  {
    BracketsOf(name, net, suffix);
  }

  lemma FormattedNetworkUnbracketed(ip: Ip, mask: nat)
    ensures ']' !in FormatNetwork(ip, mask)
  {
    FormattedIPv4Digits(ip);
    DigitsExclude(Decimal(mask), ']');
  }

  /**
   * Formatting an interface and parsing it gives back the name, address and
   * netmask with an MTU of 1500, whatever `=MTU` said, unless that was below
   * 400.
   */
  lemma ParseFormatCmdArg(name: string, ip: Ip, mask: nat, mtu: Option<nat>)
    requires '[' !in name && mask <= 32
    ensures ParseCmdArg(FormatCmdArg(name, ip, mask, mtu)) ==
            if mtu.Some? && mtu.value < MIN_MTU then Err(MtuTooSmall)
            else Ok(IfcSpec(name, ip, Netmask(mask), DEFAULT_MTU))
  {
    var net := FormatNetwork(ip, mask);
    var suffix := match mtu case None => "" case Some(m) => "=" + Decimal(m);
    assert FormatCmdArg(name, ip, mask, mtu) == name + "[" + net + "]" + suffix;
    FormattedNetworkUnbracketed(ip, mask);
    ParseCmdArgOf(name, net, suffix);
    ParseFormatNetwork(ip, mask);
    if mtu.Some? {
      ScanUnsignedOfDecimal(mtu.value, "");
      assert suffix[1..] == Decimal(mtu.value) + "";
    }
  }
}
