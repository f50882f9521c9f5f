/**
 * The learning switch of switch.c: every frame teaches the table the
 * interface its source address sits behind (first sighting only), then goes
 * to the interface learned for its destination or, when that is unknown, to
 * every interface whose address differs from the ingress interface's.
 */
module Switch {
  import opened Glab
  import opened MacTable

  /** Capacity of `switchCache`. */
  const TABLE_SIZE := 1024

  /** `sizeof (struct EthernetHeader)`: destination, source, EtherType. */
  const ETHERNET_HEADER_SIZE := 14

  /** `struct Interface`: its hardware address and its 1-based number. */
  datatype Interface = Interface(mac: Mac, ifcNum: U16)

  function Dst(frame: seq<Byte>): Mac
    requires |frame| >= ETHERNET_HEADER_SIZE
  {
    frame[0..6]
  }

  function Src(frame: seq<Byte>): Mac
    requires |frame| >= ETHERNET_HEADER_SIZE
  {
    frame[6..12]
  }

  /** The interfaces are numbered 1, 2, ... in array order, as `main` sets them up. */
  predicate Numbered(ifcs: seq<Interface>)
  {
    forall k :: 0 <= k < |ifcs| ==> ifcs[k].ifcNum == k + 1
  }

  /**
   * The flood: one unchanged copy of `frame` to each interface whose address
   * differs from `ingressMac`, in interface order.
   */
  function Flood(ifcs: seq<Interface>, ingressMac: Mac, frame: seq<Byte>): (r: seq<Emission>)
    ensures |r| <= |ifcs|
    ensures forall k :: 0 <= k < |r| ==> r[k].frame == frame
  {
    if |ifcs| == 0 then []
    else
      var rest := Flood(ifcs[..|ifcs| - 1], ingressMac, frame);
      var last := ifcs[|ifcs| - 1];
      if last.mac != ingressMac then rest + [Emission(last.ifcNum, frame)] else rest
  }

  /**
   * What `parse_frame` emits once the table has learned the source: the frame
   * to the interface of the first entry for its destination, or the flood.
   */
  function Forwarding(ifcs: seq<Interface>, table: seq<CacheEntry>, ingress: nat, frame: seq<Byte>): (r: seq<Emission>)
    requires |frame| >= ETHERNET_HEADER_SIZE && ingress < |ifcs| && PointsInto(table, |ifcs|)
    ensures |r| <= |ifcs|
    ensures forall k :: 0 <= k < |r| ==> r[k].frame == frame
    ensures Known(table, Dst(frame)) ==> |r| == 1
  {
    match FirstMatch(table, Dst(frame))
    case Some(i) => [Emission(ifcs[table[i].ifc].ifcNum, frame)]
    case None => Flood(ifcs, ifcs[ingress].mac, frame)
  }

  /** The table after `parse_frame`: a malformed frame teaches nothing. */
  function Learned(table: seq<CacheEntry>, ingress: nat, frame: seq<Byte>): (r: seq<CacheEntry>)
    ensures r == table || (|frame| >= ETHERNET_HEADER_SIZE && r == table + [CacheEntry(ingress, Src(frame))])
    ensures DistinctMacs(table) ==> DistinctMacs(r)
  {
    if |frame| < ETHERNET_HEADER_SIZE then table
    else LearnFirstSighting(table, TABLE_SIZE, ingress, Src(frame))
  }

  /** The emissions of `parse_frame` for a frame arriving on `gifc[ingress]`. */
  function Emitted(ifcs: seq<Interface>, table: seq<CacheEntry>, ingress: nat, frame: seq<Byte>): (r: seq<Emission>)
    requires ingress < |ifcs| && |table| <= TABLE_SIZE && PointsInto(table, |ifcs|)
    ensures |r| <= |ifcs|
    ensures forall k :: 0 <= k < |r| ==> r[k].frame == frame
  {
    if |frame| < ETHERNET_HEADER_SIZE then []
    else Forwarding(ifcs, Learned(table, ingress, frame), ingress, frame)
  }

  /**
   * A flood copy goes to interface number `n` exactly when some interface with
   * that number has an address other than the ingress address, and every copy
   * carries the frame unchanged.
   */
  lemma {:induction false} FloodMembers(ifcs: seq<Interface>, ingressMac: Mac, frame: seq<Byte>, e: Emission)
    ensures e in Flood(ifcs, ingressMac, frame) <==>
            e.frame == frame && exists k :: 0 <= k < |ifcs| && ifcs[k].ifcNum == e.ifcNum && ifcs[k].mac != ingressMac
    decreases |ifcs|
  {
    if |ifcs| > 0 {
      var init := ifcs[..|ifcs| - 1];
      FloodMembers(init, ingressMac, frame, e);
      var last := ifcs[|ifcs| - 1];
      if e.frame == frame && last.ifcNum == e.ifcNum && last.mac != ingressMac {
        assert e == Emission(last.ifcNum, frame);
      }
      if exists k :: 0 <= k < |ifcs| && ifcs[k].ifcNum == e.ifcNum && ifcs[k].mac != ingressMac {
        var k :| 0 <= k < |ifcs| && ifcs[k].ifcNum == e.ifcNum && ifcs[k].mac != ingressMac;
        if k < |init| {
          assert init[k] == ifcs[k];
        }
      }
      if exists k :: 0 <= k < |init| && init[k].ifcNum == e.ifcNum && init[k].mac != ingressMac {
        var k :| 0 <= k < |init| && init[k].ifcNum == e.ifcNum && init[k].mac != ingressMac;
        assert ifcs[k] == init[k];
      }
    }
  }

  /** The flood visits the interfaces in order: with 1, 2, ... numbering, ascending numbers. */
  lemma {:induction false} FloodAscending(ifcs: seq<Interface>, ingressMac: Mac, frame: seq<Byte>)
    requires Numbered(ifcs)
    ensures var f := Flood(ifcs, ingressMac, frame);
            |f| <= |ifcs| &&
            (forall i :: 0 <= i < |f| ==> 1 <= f[i].ifcNum <= |ifcs|) &&
            (forall i, j :: 0 <= i < j < |f| ==> f[i].ifcNum < f[j].ifcNum)
    decreases |ifcs|
  {
    if |ifcs| > 0 {
      var init := ifcs[..|ifcs| - 1];
      assert Numbered(init) by {
        forall k | 0 <= k < |init| ensures init[k].ifcNum == k + 1 {
          assert init[k] == ifcs[k];
        }
      }
      FloodAscending(init, ingressMac, frame);
    }
  }

  /** With 1, 2, ... numbering the flood never goes back out of the ingress interface. */
  lemma FloodSkipsIngress(ifcs: seq<Interface>, ingress: nat, frame: seq<Byte>)
    requires Numbered(ifcs) && ingress < |ifcs|
    ensures forall e :: e in Flood(ifcs, ifcs[ingress].mac, frame) ==> e.ifcNum != ifcs[ingress].ifcNum
  {
    forall e | e in Flood(ifcs, ifcs[ingress].mac, frame)
      ensures e.ifcNum != ifcs[ingress].ifcNum
    {
      FloodMembers(ifcs, ifcs[ingress].mac, frame, e);
    }
  }

  /**
   * Whatever `parse_frame` emits is the frame itself, unchanged, to interfaces
   * that exist, and at most one copy per interface.
   */
  lemma EmittedCopies(ifcs: seq<Interface>, table: seq<CacheEntry>, ingress: nat, frame: seq<Byte>)
    requires Numbered(ifcs) && ingress < |ifcs| && |table| <= TABLE_SIZE && PointsInto(table, |ifcs|)
    ensures var out := Emitted(ifcs, table, ingress, frame);
            |out| <= |ifcs| &&
            (forall i :: 0 <= i < |out| ==> out[i].frame == frame && 1 <= out[i].ifcNum <= |ifcs|) &&
            (forall i, j :: 0 <= i < j < |out| ==> out[i].ifcNum != out[j].ifcNum)
  {
    if |frame| >= ETHERNET_HEADER_SIZE {
      var learned := Learned(table, ingress, frame);
      assert PointsInto(learned, |ifcs|);
      FloodAscending(ifcs, ifcs[ingress].mac, frame);
      var f := Flood(ifcs, ifcs[ingress].mac, frame);
      forall i | 0 <= i < |f| ensures f[i].frame == frame {
        FloodMembers(ifcs, ifcs[ingress].mac, frame, f[i]);
      }
    }
  }

  /**
   * The unicast branch has no ingress check: a destination learned on the
   * ingress interface is sent straight back out of it. Two interfaces with
   * the zero address; host 1 on interface 1 talks to itself.
   */
  lemma HitCanReturnToIngress()
    ensures var ifcs := [Interface(ZERO_MAC, 1), Interface(ZERO_MAC, 2)];
            var frame: seq<Byte> := [0, 0, 0, 0, 0, 1, 0, 0, 0, 0, 0, 1, 8, 0];
            Emitted(ifcs, [], 0, frame) == [Emission(1, frame)]
  {
    var frame: seq<Byte> := [0, 0, 0, 0, 0, 1, 0, 0, 0, 0, 0, 1, 8, 0];
    var learned := Learned([], 0, frame);
    assert Src(frame) == [0, 0, 0, 0, 0, 1];
    assert learned == [CacheEntry(0, [0, 0, 0, 0, 0, 1])];
    assert Dst(frame) == [0, 0, 0, 0, 0, 1];
  }

  /**
   * The switch and its state: `gifc[0..num_ifc)` and the used prefix
   * `switchCache[0..switchTableIndex)`, plus the trace of `forward_to` calls.
   */
  class Switch {
    const gifc: array<Interface>
    const switchCache: array<CacheEntry>
    var switchTableIndex: nat
    /** Every frame handed to `forward_to`, in order. */
    var out: seq<Emission>

    ghost predicate Valid()
      reads this, gifc, switchCache
    {
      switchCache.Length == TABLE_SIZE && switchTableIndex <= TABLE_SIZE &&
      gifc.Length < 0x1_0000 && Numbered(gifc[..]) &&
      PointsInto(switchCache[..switchTableIndex], gifc.Length) &&
      DistinctMacs(switchCache[..switchTableIndex])
    }

    /** The entries in use. */
    ghost function Table(): seq<CacheEntry>
      reads this, switchCache
      requires switchTableIndex <= switchCache.Length
    {
      switchCache[..switchTableIndex]
    }

    /** `main`: `numIfc` interfaces numbered from 1, all with the zero address; empty table. */
    constructor (numIfc: nat)
      requires numIfc < 0x1_0000
      ensures Valid() && fresh(gifc) && fresh(switchCache)
      ensures gifc[..] == seq(numIfc, k requires 0 <= k < numIfc => Interface(ZERO_MAC, k + 1))
      ensures Table() == [] && out == []
    {
      gifc := new Interface[numIfc](k requires 0 <= k < numIfc => Interface(ZERO_MAC, k + 1));
      switchCache := new CacheEntry[TABLE_SIZE](_ => CacheEntry(0, ZERO_MAC));
      switchTableIndex := 0;
      out := [];
    }

    /** `forward_to`: one emission to `gifc[dst]`; its wire form is `Message`. */
    method ForwardTo(dst: nat, frame: seq<Byte>)
      requires dst < gifc.Length
      modifies this`out
      ensures out == old(out) + [Emission(gifc[dst].ifcNum, frame)]
    {
      out := out + [Emission(gifc[dst].ifcNum, frame)];
    }

    /**
     * The first loop of `parse_frame`: whether `mac` is already in the table.
     */
    method SourceKnown(mac: Mac) returns (srcAddressExists: bool)
      requires Valid()
      ensures srcAddressExists <==> Known(Table(), mac)
    {
      srcAddressExists := false;
      var i := 0;
      while i < switchTableIndex
        invariant 0 <= i <= switchTableIndex
        invariant srcAddressExists <==> Known(switchCache[..i], mac)
      {
        assert switchCache[..i + 1] == switchCache[..i] + [switchCache[i]];
        if MemCmp(mac, switchCache[i].macAddress) == 0 {
          srcAddressExists := true;
        }
        i := i + 1;
      }
      assert switchCache[..i] == Table();
    }

    /**
     * The learning step of `parse_frame`: an unknown source is appended
     * while the table has room.
     */
    method Learn(ingress: nat, src: Mac)
      requires Valid() && ingress < gifc.Length
      modifies this`switchTableIndex, switchCache
      ensures Valid()
      ensures Table() == LearnFirstSighting(old(Table()), TABLE_SIZE, ingress, src)
    {
      var srcAddressExists := SourceKnown(src);
      if !srcAddressExists && switchTableIndex < TABLE_SIZE {
        switchCache[switchTableIndex] := CacheEntry(ingress, src);
        switchTableIndex := switchTableIndex + 1;
        assert Table() == old(Table()) + [CacheEntry(ingress, src)];
      }
    }

    /**
     * The forwarding step of `parse_frame`: the frame goes to the interface of
     * the first entry for its destination, or is flooded.
     */
    method Forward(ingress: nat, frame: seq<Byte>)
      requires Valid() && ingress < gifc.Length && |frame| >= ETHERNET_HEADER_SIZE
      modifies this`out
      ensures out == old(out) + Forwarding(gifc[..], Table(), ingress, frame)
    {
      var dst := frame[0..6];
      // The C code also keeps a `dstAddressExists` flag; it is set only right
      // before the `return`, so after this loop it is always false.
      var i := 0;
      while i < switchTableIndex
        invariant 0 <= i <= switchTableIndex
        invariant forall k :: 0 <= k < i ==> switchCache[k].macAddress != dst
        invariant out == old(out)
      {
        if MemCmp(dst, switchCache[i].macAddress) == 0 {
          assert Table()[i].macAddress == dst;
          assert FirstMatch(Table(), dst) == Some(i);
          ForwardTo(switchCache[i].ifc, frame);
          return;
        }
        i := i + 1;
      }
      assert !Known(Table(), dst);

      i := 0;
      while i < gifc.Length
        invariant 0 <= i <= gifc.Length
        invariant out == old(out) + Flood(gifc[..i], gifc[ingress].mac, frame)
      {
        assert gifc[..i + 1][..i] == gifc[..i];
        if MemCmp(gifc[ingress].mac, gifc[i].mac) != 0 {
          ForwardTo(i, frame);
        }
        i := i + 1;
      }
      assert gifc[..gifc.Length] == gifc[..];
    }

    /**
     * `parse_frame` for a frame arriving on `gifc[ingress]`: a frame shorter
     * than the Ethernet header is dropped; otherwise the source is learned on
     * first sighting, then the frame is forwarded or flooded.
     */
    method ParseFrame(ingress: nat, frame: seq<Byte>)
      requires Valid() && ingress < gifc.Length
      modifies this`switchTableIndex, this`out, switchCache
      ensures Valid()
      ensures Table() == Learned(old(Table()), ingress, frame)
      ensures out == old(out) + Emitted(gifc[..], old(Table()), ingress, frame)
    {
      if |frame| < ETHERNET_HEADER_SIZE {
        return;
      }
      Learn(ingress, frame[6..12]);
      Forward(ingress, frame);
    }

    /**
     * `handle_frame`: an interface number past the last interface aborts;
     * otherwise the frame is processed on `gifc[interface - 1]`.
     */
    method HandleFrame(interface: U16, frame: seq<Byte>) returns (aborted: bool)
      requires Valid() && 1 <= interface
      modifies this`switchTableIndex, this`out, switchCache
      ensures Valid()
      ensures aborted <==> interface > gifc.Length
      ensures aborted ==> Table() == old(Table()) && out == old(out)
      ensures !aborted ==> Table() == Learned(old(Table()), interface - 1, frame)
      ensures !aborted ==> out == old(out) + Emitted(gifc[..], old(Table()), interface - 1, frame)
    {
      if interface > gifc.Length {
        return true;
      }
      ParseFrame(interface - 1, frame);
      return false;
    }

    /**
     * `handle_mac`: an interface number past the last interface aborts;
     * otherwise only that interface's address changes.
     */
    method HandleMac(ifcNum: U16, mac: Mac) returns (aborted: bool)
      requires Valid() && 1 <= ifcNum
      modifies gifc
      ensures Valid()
      ensures aborted <==> ifcNum > gifc.Length
      ensures aborted ==> gifc[..] == old(gifc[..])
      ensures !aborted ==> gifc[..] == old(gifc[..])[ifcNum - 1 := Interface(mac, ifcNum)]
    {
      if ifcNum > gifc.Length {
        return true;
      }
      gifc[ifcNum - 1] := gifc[ifcNum - 1].(mac := mac);
      return false;
    }
  }
}
