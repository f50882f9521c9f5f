/**
 * The interface specifications the VLAN switch is started with:
 * `NAME`, `NAME[T:v1,v2,...]` (a trunk port carrying tagged VLANs) or
 * `NAME[U:v]` (an access port of one untagged VLAN), as vswitch.c's
 * `parse_vlan_args`, `parse_tagged` and `parse_untagged` read them.
 */
module VlanArgs {
  import opened Glab
  import opened Text

  /** Most VLANs one interface may carry; also the largest VLAN id accepted. */
  const MAX_VLANS := 4092

  /** "No VLAN": the untagged VLAN of a port without one, and the list terminator. */
  const NO_VLAN := -1

  /** The untagged VLAN of an interface given without brackets. */
  const DEFAULT_VLAN := 0

  /** The fields `parse_vlan_args` fills in: name, tagged list, untagged VLAN. */
  datatype VlanSpec = VlanSpec(ifcName: string, taggedVlans: seq<int>, untaggedVlan: int)

  /** Why a specification is refused (the diagnostic `parse_vlan_args` prints). */
  datatype VlanArgsError =
    | MissingCloseBracket
    | LacksColon
    | TooManyVlans
    | ExpectedNumber
    | TooLarge(tag: nat)
    | Unsupported(c: char)

  predicate IsVlanId(v: int)
  {
    0 <= v <= MAX_VLANS
  }

  /** The ids of a `T:` list and nothing else. */
  predicate ValidTagList(vs: seq<int>)
  {
    |vs| <= MAX_VLANS && forall k :: 0 <= k < |vs| ==> IsVlanId(vs[k])
  }

  /**
   * A specification `parse_vlan_args` can produce: either an access port
   * (empty tagged list, one untagged VLAN) or a trunk port (a terminated
   * list of VLAN ids, no untagged VLAN), never both.
   */
  predicate WellFormed(spec: VlanSpec)
  {
    |spec.taggedVlans| > 0 && spec.taggedVlans[|spec.taggedVlans| - 1] == NO_VLAN &&
    ValidTagList(spec.taggedVlans[..|spec.taggedVlans| - 1]) &&
    ((spec.taggedVlans == [NO_VLAN] && IsVlanId(spec.untaggedVlan)) ||
     spec.untaggedVlan == NO_VLAN)
  }

  /**
   * The `strtok` loop of `parse_tagged`, from token `toks[0]` on, with the ids
   * `acc` already stored: a token arriving when the list is full, one that
   * does not start with a digit, or one above `MAX_VLANS` ends the parse.
   */
  function ScanTags(toks: seq<string>, acc: seq<int>): (r: Result<seq<int>, VlanArgsError>)
    requires ValidTagList(acc)
    ensures r.Ok? ==> |r.value| == |acc| + |toks| && r.value[..|acc|] == acc && ValidTagList(r.value)
    decreases |toks|
  {
    if |toks| == 0 then Ok(acc)
    else if |acc| == MAX_VLANS then Err(TooManyVlans)
    else match ScanUnsigned(toks[0])
      case None => Err(ExpectedNumber)
      case Some(tag) =>
        if tag > MAX_VLANS then Err(TooLarge(tag))
        else
          var r := ScanTags(toks[1..], acc + [tag]);
          assert r.Ok? ==> r.value[..|acc|] == (r.value[..|acc| + 1])[..|acc|];
          r
  }

  /** What `parse_tagged` stores for the text `s` between `T` and `]`. */
  function TaggedSpec(s: string): (r: Result<seq<int>, VlanArgsError>)
    ensures r.Ok? ==> |s| > 0 && s[0] == ':' &&
                      |r.value| == |Tokens(s[1..], ',')| + 1 && r.value[|r.value| - 1] == NO_VLAN
  {
    if |s| == 0 || s[0] != ':' then Err(LacksColon)
    else match ScanTags(Tokens(s[1..], ','), [])
      case Err(e) => Err(e)
      case Ok(vs) => Ok(vs + [NO_VLAN])
  }

  /**
   * `parse_tagged`: the ids of the comma-separated list after `:` go into
   * `tagged_vlans` one by one, followed by the terminator.
   */
  method ParseTagged(s: string) returns (r: Result<seq<int>, VlanArgsError>)
    ensures r == TaggedSpec(s)
  {
    if |s| == 0 || s[0] != ':' {
      return Err(LacksColon);
    }
    var toks := Tokens(s[1..], ',');
    var taggedVlans := new int[MAX_VLANS + 1];
    var pos := 0;
    var i := 0;
    while i < |toks|
      invariant 0 <= i <= |toks| && pos == i && pos <= MAX_VLANS
      invariant ValidTagList(taggedVlans[..pos])
      invariant ScanTags(toks, []) == ScanTags(toks[i..], taggedVlans[..pos])
    {
      if pos == MAX_VLANS {
        return Err(TooManyVlans);
      }
      var tag := ScanUnsigned(toks[i]);
      if tag.None? {
        return Err(ExpectedNumber);
      }
      if tag.value > MAX_VLANS {
        return Err(TooLarge(tag.value));
      }
      assert toks[i..][1..] == toks[i + 1..];
      taggedVlans[pos] := tag.value;
      assert taggedVlans[..pos + 1] == taggedVlans[..pos] + [tag.value];
      pos := pos + 1;
      i := i + 1;
    }
    taggedVlans[pos] := NO_VLAN;
    assert taggedVlans[..pos + 1] == taggedVlans[..pos] + [NO_VLAN];
    return Ok(taggedVlans[..pos + 1]);
  }

  /**
   * `parse_untagged`: after `:` a decimal number no larger than `MAX_VLANS`;
   * whatever follows its digits is ignored.
   */
  function ParseUntagged(s: string): (r: Result<int, VlanArgsError>)
    ensures r.Ok? <==> |s| > 1 && s[0] == ':' && IsDigit(s[1]) && DecimalValue(s[1..][..DigitRun(s[1..])]) <= MAX_VLANS
    ensures r.Ok? ==> IsVlanId(r.value) && r.value == DecimalValue(s[1..][..DigitRun(s[1..])])
  {
    if |s| == 0 || s[0] != ':' then Err(LacksColon)
    else match ScanUnsigned(s[1..])
      case None => Err(ExpectedNumber)
      case Some(tag) => if tag > MAX_VLANS then Err(TooLarge(tag)) else Ok(tag)
  }

  /**
   * `parse_vlan_args` on one command-line argument: without `[` the whole
   * argument names an access port of `DEFAULT_VLAN`; otherwise the name is
   * everything before `[`, and the letter after it selects the tagged or the
   * untagged parser for the text up to `]`.
   */
  function VlanArgsSpec(arg: string): (r: Result<VlanSpec, VlanArgsError>)
    ensures r.Ok? ==> r.value.ifcName <= arg && '[' !in r.value.ifcName
    ensures '[' in arg && ']' !in arg ==> r == Err(MissingCloseBracket)
  {
    match IndexOf(arg, '[')
    case None => Ok(VlanSpec(arg, [NO_VLAN], DEFAULT_VLAN))
    case Some(open) =>
      var name, rest := arg[..open], arg[open + 1..];
      match IndexOf(rest, ']')
      case None => Err(MissingCloseBracket)
      case Some(close) =>
        if rest[0] == 'T' then
          match TaggedSpec(rest[1..close])
          case Err(e) => Err(e)
          case Ok(tagged) => Ok(VlanSpec(name, tagged, NO_VLAN))
        else if rest[0] == 'U' then
          match ParseUntagged(rest[1..close])
          case Err(e) => Err(e)
          case Ok(u) => Ok(VlanSpec(name, [NO_VLAN], u))
        else Err(Unsupported(rest[0]))
  }

  /** A parsed tagged list holds valid ids and ends in its only terminator. */
  lemma TaggedSpecWellFormed(s: string)
    requires TaggedSpec(s).Ok?
    ensures var t := TaggedSpec(s).value;
            |t| > 0 && t[|t| - 1] == NO_VLAN && ValidTagList(t[..|t| - 1]) && NO_VLAN !in t[..|t| - 1]
  {
    var t := TaggedSpec(s).value;
    assert t[..|t| - 1] == ScanTags(Tokens(s[1..], ','), []).value;
  }

  /** Every specification the parser accepts is well formed. */
  lemma VlanArgsWellFormed(arg: string)
    requires VlanArgsSpec(arg).Ok?
    ensures WellFormed(VlanArgsSpec(arg).value)
  {
    match IndexOf(arg, '[')
    case None =>
    case Some(open) =>
      var rest := arg[open + 1..];
      var close := IndexOf(rest, ']').value;
      if rest[0] == 'T' {
        TaggedSpecWellFormed(rest[1..close]);
      }
  }

  /** The argument a specification is written as: the inverse of the parser. */
  function FormatVlanArgs(spec: VlanSpec): string
    requires WellFormed(spec)
  {
    if spec.untaggedVlan == NO_VLAN then
      spec.ifcName + "[T:" + Join(Decimals(spec.taggedVlans[..|spec.taggedVlans| - 1]), ',') + "]"
    else spec.ifcName + "[U:" + Decimal(spec.untaggedVlan) + "]"
  }

  function Decimals(vs: seq<int>): (ds: seq<string>)
    requires forall k :: 0 <= k < |vs| ==> vs[k] >= 0
    ensures |ds| == |vs|
    ensures forall k :: 0 <= k < |vs| ==> ds[k] == Decimal(vs[k])
  {
    if |vs| == 0 then [] else [Decimal(vs[0])] + Decimals(vs[1..])
  }

  /** The `strtok` loop reads back a list of decimal ids. */
  lemma {:induction false} ScanTagsOfDecimals(vs: seq<int>, acc: seq<int>)
    requires ValidTagList(acc) && ValidTagList(vs) && |acc| + |vs| <= MAX_VLANS
    ensures ScanTags(Decimals(vs), acc) == Ok(acc + vs)
    decreases |vs|
  {
    if |vs| == 0 {
      assert acc + vs == acc;
    } else {
      var ds := Decimals(vs);
      ScanUnsignedOfDecimal(vs[0], "");
      assert ds[0] + "" == ds[0];
      assert ds[1..] == Decimals(vs[1..]);
      assert acc + [vs[0]] + vs[1..] == acc + vs;
      ScanTagsOfDecimals(vs[1..], acc + [vs[0]]);
    }
  }

  /**
   * Where the parser finds the brackets of `name[<letter>:<body>]`: the first
   * `[` ends the name and the first `]` after it ends the body.
   */
  lemma BracketsOf(name: string, letter: char, body: string)
    requires '[' !in name && ']' !in body && letter != ']'
    ensures var arg := name + "[" + [letter, ':'] + body + "]";
            IndexOf(arg, '[') == Some(|name|) &&
            var rest := arg[|name| + 1..];
            IndexOf(rest, ']') == Some(|body| + 2) && rest[0] == letter && rest[1..|body| + 2] == [':'] + body &&
            arg[..|name|] == name
  {
    var arg := name + "[" + [letter, ':'] + body + "]";
    assert arg[..|name|] == name;
    IndexOfAt(arg, '[', |name|);
    var rest := arg[|name| + 1..];
    assert rest == [letter, ':'] + body + "]";
    assert rest[..|body| + 2] == [letter, ':'] + body;
    IndexOfAt(rest, ']', |body| + 2);
  }

  /** `parse_vlan_args` on `name[<letter>:<body>]`: the letter picks the parser for `:<body>`. */
  lemma VlanArgsSpecOf(name: string, letter: char, body: string)
    requires '[' !in name && ']' !in body && letter != ']'
    ensures VlanArgsSpec(name + "[" + [letter, ':'] + body + "]") ==
            if letter == 'T' then
              match TaggedSpec([':'] + body)
              case Err(e) => Err(e)
              case Ok(tagged) => Ok(VlanSpec(name, tagged, NO_VLAN))
            else if letter == 'U' then
              match ParseUntagged([':'] + body)
              case Err(e) => Err(e)
              case Ok(u) => Ok(VlanSpec(name, [NO_VLAN], u))
            else Err(Unsupported(letter))
  {
    BracketsOf(name, letter, body);
  }

  /** `parse_tagged` reads back the `:`-prefixed list of decimal ids, terminated. */
  lemma TaggedSpecOfDecimals(vs: seq<int>)
    requires ValidTagList(vs)
    ensures TaggedSpec([':'] + Join(Decimals(vs), ',')) == Ok(vs + [NO_VLAN])
  {
    var ds := Decimals(vs);
    var body := Join(ds, ',');
    forall k | 0 <= k < |ds| ensures |ds[k]| > 0 && ',' !in ds[k] {
      DigitsExclude(ds[k], ',');
    }
    TokensOfJoin(ds, ',');
    assert ([':'] + body)[1..] == body;
    ScanTagsOfDecimals(vs, []);
    assert [] + vs == vs;
  }

  /** Formatting a trunk-port specification and parsing it gives it back. */
  lemma ParseFormatTagged(name: string, vs: seq<int>)
    requires '[' !in name && ValidTagList(vs)
    ensures VlanArgsSpec(name + "[T:" + Join(Decimals(vs), ',') + "]") == Ok(VlanSpec(name, vs + [NO_VLAN], NO_VLAN))
  {
    var body := Join(Decimals(vs), ',');
    JoinOfDigits(Decimals(vs), ',', ']');
    assert name + "[T:" + body + "]" == name + "[" + ['T', ':'] + body + "]";
    VlanArgsSpecOf(name, 'T', body);
    TaggedSpecOfDecimals(vs);
  }

  /** `parse_untagged` reads back `:` and a decimal id. */
  lemma UntaggedOfDecimal(u: int)
    requires IsVlanId(u)
    ensures ParseUntagged([':'] + Decimal(u)) == Ok(u)
  {
    var s := [':'] + Decimal(u);
    ScanUnsignedOfDecimal(u, "");
    assert s[1..] == Decimal(u) + "";
    DigitRunOfDigits(Decimal(u), "");
    DecimalValueOfDecimal(u);
  }

  /** Formatting an access-port specification and parsing it gives it back. */
  lemma ParseFormatUntagged(name: string, u: int)
    requires '[' !in name && IsVlanId(u)
    ensures VlanArgsSpec(name + "[U:" + Decimal(u) + "]") == Ok(VlanSpec(name, [NO_VLAN], u))
  {
    var body := Decimal(u);
    DigitsExclude(body, ']');
    assert name + "[U:" + body + "]" == name + "[" + ['U', ':'] + body + "]";
    VlanArgsSpecOf(name, 'U', body);
    UntaggedOfDecimal(u);
  }

  /** Formatting a well-formed specification and parsing it gives it back. */
  lemma ParseFormatVlanArgs(spec: VlanSpec)
    requires WellFormed(spec) && '[' !in spec.ifcName
    ensures VlanArgsSpec(FormatVlanArgs(spec)) == Ok(spec)
  {
    var name := spec.ifcName;
    if spec.untaggedVlan == NO_VLAN {
      var vs := spec.taggedVlans[..|spec.taggedVlans| - 1];
      assert spec.taggedVlans == vs + [NO_VLAN];
      ParseFormatTagged(name, vs);
    } else {
      ParseFormatUntagged(name, spec.untaggedVlan);
    }
  }
}
