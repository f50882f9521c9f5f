/**
 * The VLAN switch of vswitch.c: a frame is admitted on its ingress port by
 * its 802.1Q tag (or its absence), its source is learned with re-homing, and
 * it is delivered to the learned port or flooded, each copy tagged, untagged
 * or left as it is according to the egress port's VLAN membership.
 */
module VSwitch {
  import opened Glab
  import opened MacTable
  import opened VlanArgs

  /** Capacity of `switchCache`. */
  const TABLE_SIZE := 500

  /**
   * `sizeof (struct EthernetHeader)` of vswitch.c: destination, source and
   * the two 16-bit fields where an 802.1Q tag's TPID and TCI sit.
   */
  const HEADER_SIZE := 16

  /** The IEEE 802.1Q tag protocol identifier. */
  const TPID: U16 := 0x8100

  /**
   * `struct Interface`: address, number, name, the tagged VLANs (terminated
   * by `NO_VLAN`) and the untagged VLAN (`NO_VLAN` for none).
   */
  datatype Interface = Interface(mac: Mac, ifcNum: U16, ifcName: string, taggedVlans: seq<int>, untaggedVlan: int)

  /** The tagged list holds its terminator. */
  predicate Terminated(tagged: seq<int>)
  {
    NO_VLAN in tagged
  }

  predicate AllTerminated(ifcs: seq<Interface>)
  {
    forall k :: 0 <= k < |ifcs| ==> Terminated(ifcs[k].taggedVlans)
  }

  predicate Numbered(ifcs: seq<Interface>)
  {
    forall k :: 0 <= k < |ifcs| ==> ifcs[k].ifcNum == k + 1
  }

  /** Position of the terminator: the entries before it are the list. */
  function TerminatorIndex(tagged: seq<int>): (n: nat)
    requires Terminated(tagged)
    ensures n < |tagged| && tagged[n] == NO_VLAN && NO_VLAN !in tagged[..n]
  {
    if tagged[0] == NO_VLAN then 0
    else
      assert tagged == [tagged[0]] + tagged[1..];
      var n := TerminatorIndex(tagged[1..]);
      assert tagged[..n + 1] == [tagged[0]] + tagged[1..][..n];
      n + 1
  }

  /** `v` is one of the listed VLANs. */
  predicate Lists(tagged: seq<int>, v: int)
    requires Terminated(tagged)
  {
    v in tagged[..TerminatorIndex(tagged)]
  }

  /**
   * The membership loops of `parse_frame`: walk the list until `v` turns up,
   * giving up at the terminator. Looking for `NO_VLAN` itself stops at the
   * terminator and succeeds.
   */
  method ListsVlan(tagged: seq<int>, v: int) returns (found: bool)
    requires Terminated(tagged)
    ensures found <==> v == NO_VLAN || Lists(tagged, v)
  {
    var j := 0;
    while tagged[j] != v
      invariant 0 <= j <= TerminatorIndex(tagged)
      invariant v !in tagged[..j]
      decreases TerminatorIndex(tagged) - j
    {
      if tagged[j] == NO_VLAN {
        return false;
      }
      assert tagged[..j + 1] == tagged[..j] + [tagged[j]];
      j := j + 1;
    }
    return true;
  }

  function Dst(frame: seq<Byte>): Mac
    requires |frame| >= HEADER_SIZE
  {
    frame[0..6]
  }

  function Src(frame: seq<Byte>): Mac
    requires |frame| >= HEADER_SIZE
  {
    frame[6..12]
  }

  /**
   * The tag test: the 16-bit field after the source holds the 802.1Q TPID
   * 0x8100, whose octets on the wire are 81 00 (the code compares the field
   * as read on a little-endian host with 0x0081).
   */
  predicate IsTagged(frame: seq<Byte>)
    ensures IsTagged(frame) <==> |frame| >= 14 && frame[12..14] == Be16(TPID)
  {
    |frame| >= 14 && frame[12] == 0x81 && frame[13] == 0x00
  }

  /** The VLAN id: all 16 bits of the TCI in network order (no 12-bit mask). */
  function VlanId(frame: seq<Byte>): (v: U16)
    requires |frame| >= HEADER_SIZE
    ensures Be16(v) == frame[14..16]
  {
    FromBe16(frame[14], frame[15])
  }

  /**
   * Admission on the ingress port: a tagged frame only on a port without an
   * untagged VLAN that lists the frame's VLAN; an untagged frame only on a
   * port with an untagged VLAN.
   */
  predicate Admitted(ingress: Interface, frame: seq<Byte>)
    requires |frame| >= HEADER_SIZE && Terminated(ingress.taggedVlans)
    ensures Admitted(ingress, frame) ==> (IsTagged(frame) <==> ingress.untaggedVlan == NO_VLAN)
  {
    if IsTagged(frame) then Lists(ingress.taggedVlans, VlanId(frame)) && ingress.untaggedVlan == NO_VLAN
    else ingress.untaggedVlan != NO_VLAN
  }

  /** The frame without its four tag octets 12..15. */
  function StripTag(frame: seq<Byte>): (r: seq<Byte>)
    requires |frame| >= HEADER_SIZE
    ensures |r| == |frame| - 4
  {
    frame[..12] + frame[16..]
  }

  /** The frame with the four octets `tag` inserted after the source address. */
  function InsertTag(frame: seq<Byte>, tag: seq<Byte>): (r: seq<Byte>)
    requires |frame| >= 12 && |tag| == 4
    ensures |r| == |frame| + 4
  {
    frame[..12] + tag + frame[12..]
  }

  /** Removing an inserted tag gives the frame back. */
  lemma StripInsertedTag(frame: seq<Byte>, tag: seq<Byte>)
    requires |frame| >= 12 && |tag| == 4
    ensures StripTag(InsertTag(frame, tag)) == frame
  {
    var t := InsertTag(frame, tag);
    assert t[..12] == frame[..12];
    assert t[16..] == frame[12..];
    assert frame == frame[..12] + frame[12..];
  }

  /** Inserting the tag a frame had gives the frame back. */
  lemma InsertStrippedTag(frame: seq<Byte>)
    requires |frame| >= HEADER_SIZE
    ensures InsertTag(StripTag(frame), frame[12..16]) == frame
  {
    var s := StripTag(frame);
    assert s[..12] == frame[..12];
    assert s[12..] == frame[16..];
    assert frame == frame[..12] + frame[12..16] + frame[16..];
  }

  /** The tag the flood inserts: TPID 81 00 and a TCI that reads as VLAN 1. */
  const FLOOD_TAG: seq<Byte> := [0x81, 0x00, 0x00, 0x01]

  /**
   * `sizeof (const uint8_t *)` on a 64-bit host: what the unicast branch that
   * should insert a tag hands to `forward_to` as the frame size, together
   * with the original frame.
   */
  const POINTER_SIZE := 8

  /**
   * The copy of an admitted frame that egress port `dest` gets, if any. A
   * tagged frame is stripped for a port whose untagged VLAN is the frame's,
   * passed on as is to a port that lists it, and withheld otherwise. An
   * untagged frame is passed on as is to a port of the same untagged VLAN and
   * withheld from a port that does not list the ingress port's untagged VLAN.
   * For a port that does list it, the flood sends the frame with `FLOOD_TAG`
   * inserted, while the unicast branch builds the tagged copy but sends the
   * first `POINTER_SIZE` octets of the original frame.
   */
  function Egress(ingress: Interface, dest: Interface, frame: seq<Byte>, unicast: bool): (r: Option<seq<Byte>>)
    requires |frame| >= HEADER_SIZE && Terminated(dest.taggedVlans)
    ensures var v := if IsTagged(frame) then VlanId(frame) else ingress.untaggedVlan;
            r.Some? <==> v == dest.untaggedVlan || Lists(dest.taggedVlans, v)
  {
    if IsTagged(frame) then
      if VlanId(frame) == dest.untaggedVlan then Some(StripTag(frame))
      else if Lists(dest.taggedVlans, VlanId(frame)) then Some(frame)
      else None
    else
      if ingress.untaggedVlan == dest.untaggedVlan then Some(frame)
      else if Lists(dest.taggedVlans, ingress.untaggedVlan) then
        Some(if unicast then frame[..POINTER_SIZE] else InsertTag(frame, FLOOD_TAG))
      else None
  }

  /** The emission for `dest`, when it gets a copy. */
  function EgressTo(ingress: Interface, dest: Interface, frame: seq<Byte>, unicast: bool): (r: seq<Emission>)
    requires |frame| >= HEADER_SIZE && Terminated(dest.taggedVlans)
    ensures |r| <= 1 && (|r| == 1 <==> Egress(ingress, dest, frame, unicast).Some?)
    ensures |r| == 1 ==> r[0].ifcNum == dest.ifcNum
  {
    match Egress(ingress, dest, frame, unicast)
    case None => []
    case Some(f) => [Emission(dest.ifcNum, f)]
  }

  /**
   * The flood: every interface whose address differs from the ingress
   * address, in order, gets its egress copy.
   */
  function Flood(ifcs: seq<Interface>, ingress: Interface, frame: seq<Byte>): (r: seq<Emission>)
    requires |frame| >= HEADER_SIZE && AllTerminated(ifcs)
    ensures |r| <= |ifcs|
  {
    if |ifcs| == 0 then []
    else
      var init := ifcs[..|ifcs| - 1];
      assert AllTerminated(init) by {
        forall k | 0 <= k < |init| ensures Terminated(init[k].taggedVlans) {
          assert init[k] == ifcs[k];
        }
      }
      var last := ifcs[|ifcs| - 1];
      Flood(init, ingress, frame) +
      (if last.mac != ingress.mac then EgressTo(ingress, last, frame, false) else [])
  }

  /** One more interface extends the flood by that interface's copy, if it gets one. */
  lemma FloodStep(ifcs: seq<Interface>, i: nat, ingress: Interface, frame: seq<Byte>)
    requires |frame| >= HEADER_SIZE && AllTerminated(ifcs) && i < |ifcs|
    ensures AllTerminated(ifcs[..i]) && AllTerminated(ifcs[..i + 1])
    ensures Flood(ifcs[..i + 1], ingress, frame) ==
            Flood(ifcs[..i], ingress, frame) +
            (if ifcs[i].mac != ingress.mac then EgressTo(ingress, ifcs[i], frame, false) else [])
  {
    assert ifcs[..i + 1][..i] == ifcs[..i];
    assert ifcs[..i + 1][i] == ifcs[i];
  }

  /**
   * What `parse_frame` emits for an admitted frame once the table has
   * learned the source: the egress copy for the port of the first entry for
   * the destination (and nothing more), or the flood.
   */
  function Forwarding(ifcs: seq<Interface>, table: seq<CacheEntry>, ingress: nat, frame: seq<Byte>): (r: seq<Emission>)
    requires |frame| >= HEADER_SIZE && ingress < |ifcs| && AllTerminated(ifcs) && PointsInto(table, |ifcs|)
    ensures |r| <= |ifcs|
    ensures Known(table, Dst(frame)) ==> |r| <= 1
  {
    match FirstMatch(table, Dst(frame))
    case Some(i) => EgressTo(ifcs[ingress], ifcs[table[i].ifc], frame, true)
    case None => Flood(ifcs, ifcs[ingress], frame)
  }

  /** The table after `parse_frame`: only an admitted frame teaches anything. */
  function Learned(ifcs: seq<Interface>, table: seq<CacheEntry>, ingress: nat, frame: seq<Byte>): (r: seq<CacheEntry>)
    requires ingress < |ifcs| && AllTerminated(ifcs)
    ensures |table| <= |r| <= |table| + 1
    ensures |table| <= TABLE_SIZE ==> |r| <= TABLE_SIZE
    ensures DistinctMacs(table) ==> DistinctMacs(r)
    ensures PointsInto(table, |ifcs|) ==> PointsInto(r, |ifcs|)
  {
    if |frame| < HEADER_SIZE || !Admitted(ifcs[ingress], frame) then table
    else LearnRehoming(table, TABLE_SIZE, ingress, Src(frame))
  }

  /** The emissions of `parse_frame` for a frame arriving on `ifcs[ingress]`. */
  function Emitted(ifcs: seq<Interface>, table: seq<CacheEntry>, ingress: nat, frame: seq<Byte>): (r: seq<Emission>)
    requires ingress < |ifcs| && AllTerminated(ifcs) && |table| <= TABLE_SIZE && PointsInto(table, |ifcs|)
    ensures |r| <= |ifcs|
  {
    if |frame| < HEADER_SIZE || !Admitted(ifcs[ingress], frame) then []
    else Forwarding(ifcs, Learned(ifcs, table, ingress, frame), ingress, frame)
  }

  /**
   * A copy goes out on a port only if the port belongs to the frame's VLAN
   * (its untagged VLAN, or a listed one). Except where the unicast branch
   * should insert a tag, the copy is tagged exactly when the port does not
   * carry that VLAN untagged, and it is the frame grown or shrunk by the four
   * tag octets. `v` is the frame's VLAN: its tag, or the ingress port's
   * untagged VLAN.
   */
  lemma EgressTagging(ingress: Interface, dest: Interface, frame: seq<Byte>, unicast: bool)
    requires |frame| >= HEADER_SIZE && Terminated(ingress.taggedVlans) && Terminated(dest.taggedVlans)
    requires Admitted(ingress, frame)
    requires IsTagged(frame) ==> !IsTagged(StripTag(frame))
    ensures var v := if IsTagged(frame) then VlanId(frame) else ingress.untaggedVlan;
            var r := Egress(ingress, dest, frame, unicast);
            (r.Some? <==> v == dest.untaggedVlan || Lists(dest.taggedVlans, v)) &&
            (r.Some? && (IsTagged(frame) || !unicast) ==>
               (IsTagged(r.value) <==> v != dest.untaggedVlan) &&
               |r.value| == |frame| + (if IsTagged(frame) == IsTagged(r.value) then 0 else if IsTagged(frame) then -4 else 4))
  {
    if !IsTagged(frame) {
      var t := InsertTag(frame, FLOOD_TAG);
      assert t[12] == 0x81 && t[13] == 0x00;
    }
  }

  /** A frame passed on tagged keeps its VLAN id. */
  lemma TaggedKeepsVlan(ingress: Interface, dest: Interface, frame: seq<Byte>, unicast: bool)
    requires |frame| >= HEADER_SIZE && Terminated(dest.taggedVlans)
    requires IsTagged(frame) && Egress(ingress, dest, frame, unicast).Some?
    requires IsTagged(Egress(ingress, dest, frame, unicast).value)
    requires !IsTagged(StripTag(frame))
    ensures Egress(ingress, dest, frame, unicast) == Some(frame)
  {
  }

  /**
   * The unicast branch that should tag an untagged frame for a trunk port
   * sends the first `POINTER_SIZE` octets of the frame instead: no tag, no
   * payload, whatever the frame's length.
   */
  lemma UnicastInsertTruncates(ingress: Interface, dest: Interface, frame: seq<Byte>)
    requires |frame| >= HEADER_SIZE && Terminated(dest.taggedVlans) && !IsTagged(frame)
    requires ingress.untaggedVlan != dest.untaggedVlan && Lists(dest.taggedVlans, ingress.untaggedVlan)
    ensures var r := Egress(ingress, dest, frame, true);
            r.Some? && |r.value| == POINTER_SIZE && !IsTagged(r.value) &&
            r.value == frame[..6] + frame[6..8] &&
            Egress(ingress, dest, frame, false) == Some(InsertTag(frame, FLOOD_TAG))
  {
  }

  /**
   * Every tag the flood inserts reads back as VLAN 1, whatever VLAN the
   * frame travels in.
   */
  lemma FloodTagIsVlanOne(frame: seq<Byte>)
    requires |frame| >= 12
    ensures var t := InsertTag(frame, FLOOD_TAG);
            IsTagged(t) && VlanId(t) == 1 && StripTag(t) == frame
  {
    var t := InsertTag(frame, FLOOD_TAG);
    assert t[12..16] == FLOOD_TAG;
    StripInsertedTag(frame, FLOOD_TAG);
  }

  /** Port `dest` is one the flood serves, and its flood copy is `e`. */
  predicate GetsFloodCopy(dest: Interface, ingress: Interface, frame: seq<Byte>, e: Emission)
    requires |frame| >= HEADER_SIZE
  {
    Terminated(dest.taggedVlans) && dest.ifcNum == e.ifcNum && dest.mac != ingress.mac &&
    Egress(ingress, dest, frame, false) == Some(e.frame)
  }

  /** The copy one port adds to the flood is `e` exactly when that port gets `e`. */
  lemma FloodCopyOf(dest: Interface, ingress: Interface, frame: seq<Byte>, e: Emission)
    requires |frame| >= HEADER_SIZE && Terminated(dest.taggedVlans)
    ensures e in (if dest.mac != ingress.mac then EgressTo(ingress, dest, frame, false) else []) <==>
            GetsFloodCopy(dest, ingress, frame, e)
  {
  }

  /**
   * A flood copy goes to interface number `n` exactly when an interface of
   * that number has an address other than the ingress address and its
   * egress rule gives it a copy, and the copy is that one.
   */
  lemma {:induction false} FloodMembers(ifcs: seq<Interface>, ingress: Interface, frame: seq<Byte>, e: Emission)
    requires |frame| >= HEADER_SIZE && AllTerminated(ifcs)
    ensures e in Flood(ifcs, ingress, frame) <==>
            exists k :: 0 <= k < |ifcs| && GetsFloodCopy(ifcs[k], ingress, frame, e)
    decreases |ifcs|
  {
    if |ifcs| > 0 {
      var init := ifcs[..|ifcs| - 1];
      var last := ifcs[|ifcs| - 1];
      var copy := if last.mac != ingress.mac then EgressTo(ingress, last, frame, false) else [];
      FloodStep(ifcs, |ifcs| - 1, ingress, frame);
      assert Flood(ifcs, ingress, frame) == Flood(init, ingress, frame) + copy;
      FloodMembers(init, ingress, frame, e);
      FloodCopyOf(last, ingress, frame, e);
      ServedSplit(ifcs, init, d => GetsFloodCopy(d, ingress, frame, e));
    }
  }

  /** Some port of `ifcs` is served exactly when one of its first ports or its last one is. */
  lemma ServedSplit(ifcs: seq<Interface>, init: seq<Interface>, served: Interface -> bool)
    requires |ifcs| > 0 && init == ifcs[..|ifcs| - 1]
    ensures (exists k :: 0 <= k < |ifcs| && served(ifcs[k])) <==>
            (exists k :: 0 <= k < |init| && served(init[k])) || served(ifcs[|ifcs| - 1])
  {
    if exists k :: 0 <= k < |ifcs| && served(ifcs[k]) {
      var k :| 0 <= k < |ifcs| && served(ifcs[k]);
      if k < |init| {
        assert init[k] == ifcs[k];
      }
    }
    if exists k :: 0 <= k < |init| && served(init[k]) {
      var k :| 0 <= k < |init| && served(init[k]);
      assert ifcs[k] == init[k];
    }
  }

  /** Emissions to interfaces numbered 1 to `n`, in strictly ascending order, so at most one per interface. */
  predicate AscendingWithin(f: seq<Emission>, n: int)
  {
    (forall i :: 0 <= i < |f| ==> 1 <= f[i].ifcNum <= n) &&
    (forall i, j :: 0 <= i < j < |f| ==> f[i].ifcNum < f[j].ifcNum)
  }

  /** Appending at most one emission for interface `n` to emissions for lower interfaces keeps the order. */
  lemma AscendingAppend(rest: seq<Emission>, copy: seq<Emission>, n: int)
    requires 1 <= n && AscendingWithin(rest, n - 1) && |copy| <= 1 && (|copy| == 1 ==> copy[0].ifcNum == n)
    ensures AscendingWithin(rest + copy, n)
  {
    var f := rest + copy;
    forall i | 0 <= i < |f| ensures 1 <= f[i].ifcNum <= n {
      if i < |rest| {
        assert f[i] == rest[i];
      } else {
        assert f[i] == copy[0];
      }
    }
    forall i, j | 0 <= i < j < |f| ensures f[i].ifcNum < f[j].ifcNum {
      if j >= |rest| {
        assert f[i] == rest[i];
      } else {
        assert f[i] == rest[i] && f[j] == rest[j];
      }
    }
  }

  /** The flood visits the ports in order: with 1, 2, ... numbering, ascending numbers, at most one copy each. */
  lemma {:induction false} FloodAscending(ifcs: seq<Interface>, ingress: Interface, frame: seq<Byte>)
    requires |frame| >= HEADER_SIZE && AllTerminated(ifcs) && Numbered(ifcs)
    ensures AscendingWithin(Flood(ifcs, ingress, frame), |ifcs|)
    decreases |ifcs|
  {
    if |ifcs| > 0 {
      var init := ifcs[..|ifcs| - 1];
      var last := ifcs[|ifcs| - 1];
      var copy := if last.mac != ingress.mac then EgressTo(ingress, last, frame, false) else [];
      FloodStep(ifcs, |ifcs| - 1, ingress, frame);
      assert Numbered(init) by {
        forall k | 0 <= k < |init| ensures init[k].ifcNum == k + 1 {
          assert init[k] == ifcs[k];
        }
      }
      FloodAscending(init, ingress, frame);
      assert Flood(ifcs, ingress, frame) == Flood(init, ingress, frame) + copy;
      AscendingAppend(Flood(init, ingress, frame), copy, |ifcs|);
    }
  }

  /**
   * Whatever `parse_frame` emits goes to interfaces that exist, in ascending
   * order, so at most one copy per interface.
   */
  lemma EmittedDistinct(ifcs: seq<Interface>, table: seq<CacheEntry>, ingress: nat, frame: seq<Byte>)
    requires ingress < |ifcs| && AllTerminated(ifcs) && Numbered(ifcs)
    requires |table| <= TABLE_SIZE && PointsInto(table, |ifcs|)
    ensures AscendingWithin(Emitted(ifcs, table, ingress, frame), |ifcs|)
  {
    if |frame| >= HEADER_SIZE && Admitted(ifcs[ingress], frame) {
      var learned := Learned(ifcs, table, ingress, frame);
      assert Emitted(ifcs, table, ingress, frame) == Forwarding(ifcs, learned, ingress, frame);
      match FirstMatch(learned, Dst(frame))
      case Some(i) =>
        var dest := ifcs[learned[i].ifc];
        var r := EgressTo(ifcs[ingress], dest, frame, true);
        assert Forwarding(ifcs, learned, ingress, frame) == r;
        assert |r| == 1 ==> 1 <= r[0].ifcNum <= |ifcs|;
      case None =>
        FloodAscending(ifcs, ifcs[ingress], frame);
    }
  }

  /** The flood never goes to a port that shares the ingress port's address, the ingress port included. */
  lemma FloodSkipsIngressAddress(ifcs: seq<Interface>, ingress: nat, frame: seq<Byte>)
    requires |frame| >= HEADER_SIZE && AllTerminated(ifcs) && Numbered(ifcs) && ingress < |ifcs|
    ensures forall e, k :: e in Flood(ifcs, ifcs[ingress], frame) && 0 <= k < |ifcs| && ifcs[k].mac == ifcs[ingress].mac ==>
              e.ifcNum != ifcs[k].ifcNum
  {
    forall e, k | e in Flood(ifcs, ifcs[ingress], frame) && 0 <= k < |ifcs| && ifcs[k].mac == ifcs[ingress].mac
      ensures e.ifcNum != ifcs[k].ifcNum
    {
      FloodMembers(ifcs, ifcs[ingress], frame, e);
    }
  }

  /** On a destination hit at most one copy goes out, to the learned port. */
  lemma HitEmitsAtMostOne(ifcs: seq<Interface>, table: seq<CacheEntry>, ingress: nat, frame: seq<Byte>)
    requires |frame| >= HEADER_SIZE && ingress < |ifcs| && AllTerminated(ifcs) && PointsInto(table, |ifcs|)
    requires Known(table, Dst(frame))
    ensures var out := Forwarding(ifcs, table, ingress, frame);
            var i := FirstMatch(table, Dst(frame)).value;
            |out| <= 1 && (|out| == 1 ==> out[0].ifcNum == ifcs[table[i].ifc].ifcNum)
  {
  }

  /** An access port of VLAN 10 and a trunk port of VLANs 10 and 20. */
  const ACCESS_10 := Interface([0, 0, 0, 0, 0, 1], 1, "p1", [NO_VLAN], 10)
  const TRUNK_10_20 := Interface([0, 0, 0, 0, 0, 2], 2, "p2", [10, 20, NO_VLAN], NO_VLAN)

  /** The VLANs the two example ports carry. */
  lemma PortFacts()
    ensures AllTerminated([ACCESS_10, TRUNK_10_20])
    ensures forall v :: Lists(TRUNK_10_20.taggedVlans, v) <==> v == 10 || v == 20
    ensures forall v :: !Lists(ACCESS_10.taggedVlans, v)
  {
    assert TerminatorIndex(ACCESS_10.taggedVlans) == 0;
    assert TerminatorIndex(TRUNK_10_20.taggedVlans) == 2;
    assert TRUNK_10_20.taggedVlans[..2] == [10, 20];
  }

  /** The flood over two ports: each, unless it shares the ingress address, gets its egress copy. */
  lemma FloodOfTwo(p: Interface, q: Interface, ingress: Interface, frame: seq<Byte>)
    requires |frame| >= HEADER_SIZE && Terminated(p.taggedVlans) && Terminated(q.taggedVlans)
    ensures AllTerminated([p, q])
    ensures Flood([p, q], ingress, frame) ==
            (if p.mac != ingress.mac then EgressTo(ingress, p, frame, false) else []) +
            (if q.mac != ingress.mac then EgressTo(ingress, q, frame, false) else [])
  {
    var pq := [p, q];
    assert pq[..1] == [p] && [p][..0] == [];
    assert AllTerminated(pq) by {
      assert pq[0] == p && pq[1] == q;
    }
    var first := if p.mac != ingress.mac then EgressTo(ingress, p, frame, false) else [];
    assert Flood([p], ingress, frame) == [] + first;
    assert Flood(pq, ingress, frame) ==
           Flood([p], ingress, frame) + (if q.mac != ingress.mac then EgressTo(ingress, q, frame, false) else []);
  }

  /** Host 00:00:00:00:00:09 sends a frame to `dst`, tagged with `tag` or not. */
  function HostFrame(dst: Mac, tag: seq<Byte>, payload: seq<Byte>): seq<Byte>
  {
    dst + [0, 0, 0, 0, 0, 9] + tag + payload
  }

  lemma HostFrameFields(dst: Mac, tag: seq<Byte>, payload: seq<Byte>)
    requires |tag| + |payload| >= 4
    ensures var frame := HostFrame(dst, tag, payload);
            |frame| >= HEADER_SIZE && Dst(frame) == dst && Src(frame) == [0, 0, 0, 0, 0, 9] &&
            frame[12..] == tag + payload
  {
    var frame := HostFrame(dst, tag, payload);
    assert frame[..6] == dst;
    assert frame[6..12] == [0, 0, 0, 0, 0, 9];
  }

  const BROADCAST: Mac := [0xFF, 0xFF, 0xFF, 0xFF, 0xFF, 0xFF]

  /**
   * An untagged broadcast arriving on the access port reaches the trunk port
   * with a tag inserted, and that tag reads as VLAN 1, not VLAN 10.
   */
  lemma AccessToTrunkScenario(payload: seq<Byte>)
    requires |payload| >= 2
    ensures var frame := HostFrame(BROADCAST, [0x08, 0x00], payload);
            var ifcs := [ACCESS_10, TRUNK_10_20];
            AllTerminated(ifcs) && Admitted(ACCESS_10, frame) &&
            Emitted(ifcs, [], 0, frame) == [Emission(2, InsertTag(frame, FLOOD_TAG))] &&
            VlanId(InsertTag(frame, FLOOD_TAG)) == 1
  {
    var frame := HostFrame(BROADCAST, [0x08, 0x00], payload);
    var ifcs := [ACCESS_10, TRUNK_10_20];
    PortFacts();
    HostFrameFields(BROADCAST, [0x08, 0x00], payload);
    assert !IsTagged(frame) by {
      assert frame[12] == 0x08;
    }
    var learned := Learned(ifcs, [], 0, frame);
    assert learned == [CacheEntry(0, [0, 0, 0, 0, 0, 9])];
    assert FirstMatch(learned, BROADCAST) == None;
    FloodOfTwo(ACCESS_10, TRUNK_10_20, ACCESS_10, frame);
    assert Egress(ACCESS_10, TRUNK_10_20, frame, false) == Some(InsertTag(frame, FLOOD_TAG));
    FloodTagIsVlanOne(frame);
  }

  /**
   * A broadcast tagged for VLAN 20 arriving on the trunk port is admitted
   * there and reaches nobody: the access port does not carry VLAN 20.
   */
  lemma TrunkToAccessScenario(payload: seq<Byte>)
    requires |payload| >= 2
    ensures var frame := HostFrame(BROADCAST, [0x81, 0x00, 0x00, 20], payload);
            var ifcs := [ACCESS_10, TRUNK_10_20];
            AllTerminated(ifcs) && Admitted(TRUNK_10_20, frame) && VlanId(frame) == 20 &&
            Emitted(ifcs, [], 1, frame) == []
  {
    var frame := HostFrame(BROADCAST, [0x81, 0x00, 0x00, 20], payload);
    var ifcs := [ACCESS_10, TRUNK_10_20];
    PortFacts();
    HostFrameFields(BROADCAST, [0x81, 0x00, 0x00, 20], payload);
    assert IsTagged(frame) && VlanId(frame) == 20 by {
      assert frame[12] == 0x81 && frame[13] == 0 && frame[14] == 0 && frame[15] == 20;
    }
    assert Lists(TRUNK_10_20.taggedVlans, 20) && !Lists(ACCESS_10.taggedVlans, 20);
    assert Admitted(TRUNK_10_20, frame);
    var learned := Learned(ifcs, [], 1, frame);
    assert learned == [CacheEntry(1, [0, 0, 0, 0, 0, 9])];
    assert FirstMatch(learned, BROADCAST) == None;
    FloodOfTwo(ACCESS_10, TRUNK_10_20, TRUNK_10_20, frame);
    assert Egress(TRUNK_10_20, ACCESS_10, frame, false) == None;
  }

  /**
   * An untagged frame from the access port to a host learned on the trunk
   * port: the trunk port gets the first eight octets of the frame, untagged,
   * where a flood would have sent the whole frame tagged.
   */
  lemma AccessToTrunkUnicastScenario(payload: seq<Byte>)
    requires |payload| >= 2
    ensures var host: Mac := [0, 0, 0, 0, 0, 0x0A];
            var frame := HostFrame(host, [0x08, 0x00], payload);
            var ifcs := [ACCESS_10, TRUNK_10_20];
            AllTerminated(ifcs) && Admitted(ACCESS_10, frame) &&
            Emitted(ifcs, [CacheEntry(1, host)], 0, frame) == [Emission(2, frame[..8])] &&
            !IsTagged(frame[..8])
  {
    var host: Mac := [0, 0, 0, 0, 0, 0x0A];
    var frame := HostFrame(host, [0x08, 0x00], payload);
    var ifcs := [ACCESS_10, TRUNK_10_20];
    PortFacts();
    HostFrameFields(host, [0x08, 0x00], payload);
    assert !IsTagged(frame) by {
      assert frame[12] == 0x08;
    }
    var learned := Learned(ifcs, [CacheEntry(1, host)], 0, frame);
    assert learned == [CacheEntry(1, host), CacheEntry(0, [0, 0, 0, 0, 0, 9])];
    assert FirstMatch(learned, host) == Some(0);
    UnicastInsertTruncates(ACCESS_10, TRUNK_10_20, frame);
  }

  /** A spec of one interface as `main` installs it: zero address, number `k + 1`. */
  function Install(spec: VlanSpec, k: nat): Interface
  {
    Interface(ZERO_MAC, (k + 1) % 0x1_0000, spec.ifcName, spec.taggedVlans, spec.untaggedVlan)
  }

  /**
   * The switch and its state: the interfaces, the used prefix
   * `switchCache[0..switchTableIndex)`, and the trace of `forward_to` calls.
   */
  class VSwitch {
    const gifc: array<Interface>
    const switchCache: array<CacheEntry>
    var switchTableIndex: nat
    /** Every frame handed to `forward_to`, in order. */
    var out: seq<Emission>

    ghost predicate Valid()
      reads this`switchTableIndex, gifc, switchCache
    {
      switchCache.Length == TABLE_SIZE && switchTableIndex <= TABLE_SIZE &&
      gifc.Length < 0x1_0000 && Numbered(gifc[..]) && AllTerminated(gifc[..]) &&
      PointsInto(switchCache[..switchTableIndex], gifc.Length) &&
      DistinctMacs(switchCache[..switchTableIndex])
    }

    /** The entries in use. */
    ghost function Table(): seq<CacheEntry>
      reads this`switchTableIndex, switchCache
      requires switchTableIndex <= switchCache.Length
    {
      switchCache[..switchTableIndex]
    }

    /**
     * `main` after `parse_vlan_args` succeeded for every argument: one
     * interface per specification, numbered from 1, zero addresses, empty table.
     */
    constructor (specs: seq<VlanSpec>)
      requires |specs| < 0x1_0000
      requires forall k :: 0 <= k < |specs| ==> WellFormed(specs[k])
      ensures Valid() && fresh(gifc) && fresh(switchCache)
      ensures gifc[..] == seq(|specs|, k requires 0 <= k < |specs| => Install(specs[k], k))
      ensures Table() == [] && out == []
    {
      gifc := new Interface[|specs|](k requires 0 <= k < |specs| => Install(specs[k], k));
      switchCache := new CacheEntry[TABLE_SIZE](_ => CacheEntry(0, ZERO_MAC));
      switchTableIndex := 0;
      out := [];
      new;
      forall k | 0 <= k < gifc.Length ensures Terminated(gifc[k].taggedVlans) {
        var t := specs[k].taggedVlans;
        assert t[|t| - 1] == NO_VLAN;
      }
    }

    /** `forward_to`: one emission to `gifc[dst]`; its wire form is `Message`. */
    method ForwardTo(dst: nat, frame: seq<Byte>)
      requires dst < gifc.Length
      modifies this`out
      ensures out == old(out) + [Emission(gifc[dst].ifcNum, frame)]
    {
      out := out + [Emission(gifc[dst].ifcNum, frame)];
    }

    /** The admission test of `parse_frame` on `gifc[ingress]`. */
    method Admit(ingress: nat, frame: seq<Byte>) returns (admitted: bool)
      requires Valid() && ingress < gifc.Length && |frame| >= HEADER_SIZE
      ensures admitted <==>
              if IsTagged(frame) then Lists(gifc[ingress].taggedVlans, VlanId(frame)) && gifc[ingress].untaggedVlan == NO_VLAN
              else gifc[ingress].untaggedVlan != NO_VLAN
    {
      var ifc := gifc[ingress];
      if frame[12] == 0x81 && frame[13] == 0x00 {
        var listed := ListsVlan(ifc.taggedVlans, FromBe16(frame[14], frame[15]));
        if !listed {
          return false;
        }
        if ifc.untaggedVlan != NO_VLAN {
          return false;
        }
      } else {
        if ifc.untaggedVlan == NO_VLAN {
          return false;
        }
      }
      return true;
    }

    /**
     * The re-homing loop of the learning step: every entry in use for `src`
     * moves to the ingress port; the answer says whether there was one.
     */
    method RehomeEntries(ingress: nat, src: Mac) returns (foundEntry: bool)
      requires Valid() && ingress < gifc.Length
      modifies switchCache
      ensures Valid()
      ensures Table() == Rehome(old(Table()), ingress, src)
      ensures foundEntry <==> Known(old(Table()), src)
      ensures forall k :: switchTableIndex <= k < switchCache.Length ==> switchCache[k] == old(switchCache[k])
    {
      ghost var table := Table();
      foundEntry := false;
      var i := 0;
      while i < switchTableIndex
        invariant 0 <= i <= switchTableIndex == |table|
        invariant foundEntry <==> Known(table[..i], src)
        invariant forall k :: 0 <= k < i ==> switchCache[k] == Rehome(table, ingress, src)[k]
        invariant forall k :: i <= k < switchCache.Length ==> switchCache[k] == old(switchCache[k])
      {
        assert table[..i + 1] == table[..i] + [table[i]];
        if MemCmp(switchCache[i].macAddress, src) == 0 {
          foundEntry := true;
          switchCache[i] := switchCache[i].(ifc := ingress);
        }
        i := i + 1;
      }
      assert table[..i] == table;
      assert Table() == Rehome(table, ingress, src);
    }

    /**
     * The learning step: every entry for `src` is re-homed to the ingress
     * port in place; an unknown source is appended while there is room.
     */
    method Learn(ingress: nat, src: Mac)
      requires Valid() && ingress < gifc.Length
      modifies this`switchTableIndex, switchCache
      ensures Valid()
      ensures Table() == LearnRehoming(old(Table()), TABLE_SIZE, ingress, src)
    {
      ghost var table := Table();
      var foundEntry := RehomeEntries(ingress, src);
      if !foundEntry && switchTableIndex < TABLE_SIZE {
        switchCache[switchTableIndex] := CacheEntry(ingress, src);
        switchTableIndex := switchTableIndex + 1;
        assert Table() == Rehome(table, ingress, src) + [CacheEntry(ingress, src)];
      }
    }

    /**
     * One egress decision of `parse_frame` for port `gifc[dest]`: the copy
     * `Egress` prescribes goes out, built as the code builds it.
     */
    method SendEgress(ingress: nat, dest: nat, frame: seq<Byte>, unicast: bool)
      requires Valid() && ingress < gifc.Length && dest < gifc.Length && |frame| >= HEADER_SIZE
      requires Admitted(gifc[ingress], frame)
      modifies this`out
      ensures out == old(out) + EgressTo(gifc[ingress], gifc[dest], frame, unicast)
    {
      var ifc, q := gifc[ingress], gifc[dest];
      if frame[12] == 0x81 && frame[13] == 0x00 {
        var vlanId := FromBe16(frame[14], frame[15]);
        if vlanId == q.untaggedVlan {
          var frame2 := WithoutTag(frame);
          ForwardTo(dest, frame2);
        } else {
          var listed := ListsVlan(q.taggedVlans, vlanId);
          if listed {
            ForwardTo(dest, frame);
          }
        }
      } else {
        if ifc.untaggedVlan == q.untaggedVlan {
          ForwardTo(dest, frame);
        } else {
          var listed := ListsVlan(q.taggedVlans, ifc.untaggedVlan);
          if listed && unicast {
            // The tagged copy is built, but `frame1` goes out with the size of a pointer.
            ForwardTo(dest, frame[..POINTER_SIZE]);
          } else if listed {
            var frame2 := WithTag(frame, FLOOD_TAG);
            ForwardTo(dest, frame2);
          }
        }
      }
    }

    /** The lookup loop of the forwarding step: the first entry in use for `dst`. */
    method Lookup(dst: Mac) returns (hit: Option<nat>)
      requires Valid()
      ensures hit == FirstMatch(Table(), dst)
    {
      var i := 0;
      while i < switchTableIndex
        invariant 0 <= i <= switchTableIndex
        invariant forall k :: 0 <= k < i ==> switchCache[k].macAddress != dst
      {
        if MemCmp(dst, switchCache[i].macAddress) == 0 {
          assert Table()[i].macAddress == dst;
          return Some(i);
        }
        i := i + 1;
      }
      assert !Known(Table(), dst);
      return None;
    }

    /** The flooding loop: every port whose address differs from the ingress port's gets its copy. */
    method FloodFrame(ingress: nat, frame: seq<Byte>)
      requires Valid() && ingress < gifc.Length && |frame| >= HEADER_SIZE
      requires Admitted(gifc[ingress], frame)
      modifies this`out
      ensures out == old(out) + Flood(gifc[..], gifc[ingress], frame)
    {
      ghost var ifcs, from := gifc[..], gifc[ingress];
      var i := 0;
      while i < gifc.Length
        invariant 0 <= i <= gifc.Length
        invariant out == old(out) + Flood(ifcs[..i], from, frame)
      {
        FloodStep(ifcs, i, from, frame);
        if MemCmp(gifc[ingress].mac, gifc[i].mac) != 0 {
          SendEgress(ingress, i, frame, false);
        }
        i := i + 1;
      }
      assert ifcs[..gifc.Length] == ifcs;
    }

    /**
     * The forwarding step: the first entry for the destination decides the
     * one port that may get a copy; without one, the frame is flooded.
     */
    method Forward(ingress: nat, frame: seq<Byte>)
      requires Valid() && ingress < gifc.Length && |frame| >= HEADER_SIZE
      requires Admitted(gifc[ingress], frame)
      modifies this`out
      ensures out == old(out) + Forwarding(gifc[..], Table(), ingress, frame)
    {
      var hit := Lookup(frame[0..6]);
      if hit.Some? {
        SendEgress(ingress, switchCache[hit.value].ifc, frame, true);
      } else {
        FloodFrame(ingress, frame);
      }
    }

    /**
     * `parse_frame` for a frame arriving on `gifc[ingress]`: a frame shorter
     * than the header or refused by the admission test changes nothing;
     * otherwise the source is learned with re-homing, then the frame is
     * delivered or flooded.
     */
    method ParseFrame(ingress: nat, frame: seq<Byte>)
      requires Valid() && ingress < gifc.Length
      modifies this`switchTableIndex, this`out, switchCache
      ensures Valid()
      ensures Table() == Learned(gifc[..], old(Table()), ingress, frame)
      ensures out == old(out) + Emitted(gifc[..], old(Table()), ingress, frame)
      ensures |frame| < HEADER_SIZE || !Admitted(gifc[ingress], frame) ==>
                Table() == old(Table()) && out == old(out)
    {
      if |frame| < HEADER_SIZE {
        return;
      }
      var admitted := Admit(ingress, frame);
      if !admitted {
        return;
      }
      Learn(ingress, frame[6..12]);
      Forward(ingress, frame);
    }

    /**
     * `handle_frame`: an interface number past the last interface aborts;
     * otherwise the frame is processed on `gifc[interface - 1]`.
     */
    method HandleFrame(interface: U16, frame: seq<Byte>) returns (aborted: bool)
      requires Valid() && 1 <= interface
      modifies this`switchTableIndex, this`out, switchCache
      ensures Valid()
      ensures aborted <==> interface > gifc.Length
      ensures aborted ==> Table() == old(Table()) && out == old(out)
      ensures !aborted ==> Table() == Learned(gifc[..], old(Table()), interface - 1, frame)
      ensures !aborted ==> out == old(out) + Emitted(gifc[..], old(Table()), interface - 1, frame)
    {
      if interface > gifc.Length {
        return true;
      }
      ParseFrame(interface - 1, frame);
      return false;
    }

    /**
     * `handle_mac`: an interface number past the last interface aborts;
     * otherwise only that interface's address changes.
     */
    method HandleMac(ifcNum: U16, mac: Mac) returns (aborted: bool)
      requires Valid() && 1 <= ifcNum
      modifies gifc
      ensures Valid()
      ensures aborted <==> ifcNum > gifc.Length
      ensures aborted ==> gifc[..] == old(gifc[..])
      ensures !aborted ==> gifc[..] == old(gifc[..])[ifcNum - 1 := old(gifc[ifcNum - 1]).(mac := mac)]
    {
      if ifcNum > gifc.Length {
        return true;
      }
      gifc[ifcNum - 1] := gifc[ifcNum - 1].(mac := mac);
      return false;
    }
  }

  /**
   * The copy without the tag (`frame2` of `frame_size - 4` octets): the
   * twelve address octets, then everything after the tag.
   */
  method WithoutTag(frame: seq<Byte>) returns (frame2: seq<Byte>)
    requires |frame| >= HEADER_SIZE
    ensures frame2 == StripTag(frame)
  {
    var buf := new Byte[|frame| - 4];
    Memcpy(buf, 0, frame[..12]);
    Memcpy(buf, 12, frame[16..]);
    frame2 := buf[..];
    assert frame2 == frame[..12] + frame[16..];
  }

  /**
   * The copy with a tag (`frame2` of `frame_size + 4` octets): the twelve
   * address octets, the tag, then the rest of the frame.
   */
  method WithTag(frame: seq<Byte>, tag: seq<Byte>) returns (frame2: seq<Byte>)
    requires |frame| >= HEADER_SIZE && |tag| == 4
    ensures frame2 == InsertTag(frame, tag)
  {
    var buf := new Byte[|frame| + 4];
    Memcpy(buf, 0, frame[..12]);
    Memcpy(buf, 12, tag);
    Memcpy(buf, 16, frame[12..]);
    frame2 := buf[..];
    assert frame2 == frame[..12] + tag + frame[12..];
  }
}
