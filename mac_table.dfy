/**
 * The learning table both switches keep: a fixed array of `struct SwitchCache`
 * entries of which the first `switchTableIndex` are in use. This module holds
 * the value-level view of the used prefix, the lookup the forwarding loops
 * perform, and the two learning policies: switch.c records a hardware address
 * on its first sighting only, vswitch.c re-homes a known address to the
 * interface it was last seen on.
 */
module MacTable {
  import opened Glab

  /**
   * One `struct SwitchCache` entry. The interface pointer is kept as the index
   * of the interface in `gifc`, so a later change of that interface's address
   * is seen through the entry just as through the pointer.
   */
  datatype CacheEntry = CacheEntry(ifc: nat, macAddress: Mac)

  /** One observed source address and the interface it arrived on. */
  datatype Sighting = Sighting(ifc: nat, mac: Mac)

  predicate Known(table: seq<CacheEntry>, mac: Mac)
  {
    exists k :: 0 <= k < |table| && table[k].macAddress == mac
  }

  /** No address is recorded twice. */
  predicate DistinctMacs(table: seq<CacheEntry>)
  {
    forall i, j :: 0 <= i < j < |table| ==> table[i].macAddress != table[j].macAddress
  }

  /** Every entry names one of the `numIfc` interfaces. */
  predicate PointsInto(table: seq<CacheEntry>, numIfc: nat)
  {
    forall k :: 0 <= k < |table| ==> table[k].ifc < numIfc
  }

  /** The first entry for `mac`: the one the forwarding loops stop at. */
  function FirstMatch(table: seq<CacheEntry>, mac: Mac): (r: Option<nat>)
    ensures r.Some? ==> r.value < |table| && table[r.value].macAddress == mac
    ensures r.Some? ==> forall k :: 0 <= k < r.value ==> table[k].macAddress != mac
    ensures r.None? <==> !Known(table, mac)
  {
    if |table| == 0 then None
    else if table[0].macAddress == mac then Some(0)
    else match FirstMatch(table[1..], mac)
      case None =>
        assert forall k :: 1 <= k < |table| ==> table[k] == table[1..][k - 1];
        None
      case Some(i) => Some(i + 1)
  }

  /**
   * switch.c: an address not yet in the table is appended while there is
   * room; a known address keeps the entry, and the interface, it has.
   */
  function LearnFirstSighting(table: seq<CacheEntry>, capacity: nat, ifc: nat, src: Mac): (r: seq<CacheEntry>)
    ensures |table| <= capacity ==> |r| <= capacity
    ensures |table| <= |r| <= |table| + 1 && r[..|table|] == table
    ensures |r| == |table| + 1 <==> !Known(table, src) && |table| < capacity
    ensures |r| == |table| + 1 ==> r[|table|] == CacheEntry(ifc, src)
    ensures Known(r, src) <==> Known(table, src) || |table| < capacity
    ensures DistinctMacs(table) ==> DistinctMacs(r)
  {
    if Known(table, src) || |table| >= capacity then table
    else
      var r := table + [CacheEntry(ifc, src)];
      assert r[|table|].macAddress == src;
      r
  }

  /** Every entry for `src` is bound to `ifc`; all other entries stay as they are. */
  function Rehome(table: seq<CacheEntry>, ifc: nat, src: Mac): (r: seq<CacheEntry>)
    ensures |r| == |table|
    ensures forall k :: 0 <= k < |table| ==> r[k].macAddress == table[k].macAddress
    ensures forall k :: 0 <= k < |table| && table[k].macAddress == src ==> r[k].ifc == ifc
    ensures forall k :: 0 <= k < |table| && table[k].macAddress != src ==> r[k] == table[k]
  {
    seq(|table|, k requires 0 <= k < |table| =>
      if table[k].macAddress == src then CacheEntry(ifc, src) else table[k])
  }

  /**
   * vswitch.c: every entry for the address is re-homed to the interface it
   * was just seen on; an address not yet in the table is appended while
   * there is room.
   */
  function LearnRehoming(table: seq<CacheEntry>, capacity: nat, ifc: nat, src: Mac): (r: seq<CacheEntry>)
    ensures |table| <= capacity ==> |r| <= capacity
    ensures |table| <= |r| <= |table| + 1
    ensures |r| == |table| + 1 <==> !Known(table, src) && |table| < capacity
    ensures |r| == |table| + 1 ==> r[|table|] == CacheEntry(ifc, src)
    ensures forall k :: 0 <= k < |table| ==> r[k].macAddress == table[k].macAddress
    ensures forall k :: 0 <= k < |table| && table[k].macAddress != src ==> r[k] == table[k]
    ensures forall k :: 0 <= k < |r| && r[k].macAddress == src ==> r[k].ifc == ifc
    ensures Known(r, src) <==> Known(table, src) || |table| < capacity
    ensures DistinctMacs(table) ==> DistinctMacs(r)
  {
    var t := Rehome(table, ifc, src);
    assert Known(table, src) ==> Known(t, src);
    if Known(table, src) || |table| >= capacity then t
    else
      var r := t + [CacheEntry(ifc, src)];
      assert r[|table|].macAddress == src;
      r
  }

  /** The table after a run of sightings under the switch.c policy. */
  function LearnAllFirstSighting(table: seq<CacheEntry>, capacity: nat, seen: seq<Sighting>): seq<CacheEntry>
  {
    if |seen| == 0 then table
    else
      var last := seen[|seen| - 1];
      LearnFirstSighting(LearnAllFirstSighting(table, capacity, seen[..|seen| - 1]), capacity, last.ifc, last.mac)
  }

  /** The table after a run of sightings under the vswitch.c policy. */
  function LearnAllRehoming(table: seq<CacheEntry>, capacity: nat, seen: seq<Sighting>): seq<CacheEntry>
  {
    if |seen| == 0 then table
    else
      var last := seen[|seen| - 1];
      LearnRehoming(LearnAllRehoming(table, capacity, seen[..|seen| - 1]), capacity, last.ifc, last.mac)
  }

  /**
   * Under the switch.c policy no sighting ever changes an existing entry (no
   * re-homing), addresses stay distinct and the capacity is never exceeded.
   */
  lemma {:induction false} FirstSightingIsFinal(table: seq<CacheEntry>, capacity: nat, seen: seq<Sighting>)
    requires |table| <= capacity && DistinctMacs(table)
    ensures var r := LearnAllFirstSighting(table, capacity, seen);
            |table| <= |r| <= capacity && r[..|table|] == table && DistinctMacs(r)
    decreases |seen|
  {
    if |seen| > 0 {
      FirstSightingIsFinal(table, capacity, seen[..|seen| - 1]);
      var before := LearnAllFirstSighting(table, capacity, seen[..|seen| - 1]);
      var r := LearnAllFirstSighting(table, capacity, seen);
      assert r[..|before|] == before;
      assert r[..|table|] == before[..|table|];
    }
  }

  /**
   * Seeing the same address on the same interface any number of times
   * leaves exactly one entry for it (when the table had room or already
   * knew the address).
   */
  lemma {:induction false} RepeatedSightingOneEntry(table: seq<CacheEntry>, capacity: nat, s: Sighting, n: nat)
    requires |table| <= capacity && DistinctMacs(table)
    requires |table| < capacity || Known(table, s.mac)
    requires n >= 1
    ensures var r := LearnAllFirstSighting(table, capacity, seq(n, _ => s));
            Known(r, s.mac) && DistinctMacs(r) && |r| <= |table| + 1
    decreases n
  {
    var seen := seq(n, _ => s);
    assert seen[..n - 1] == seq(n - 1, _ => s);
    if n > 1 {
      RepeatedSightingOneEntry(table, capacity, s, n - 1);
      var before := LearnAllFirstSighting(table, capacity, seen[..n - 1]);
      assert Known(before, s.mac);
    }
  }

  /** Every entry for `mac` names interface `ifc`. */
  predicate BoundTo(table: seq<CacheEntry>, mac: Mac, ifc: nat)
  {
    forall k :: 0 <= k < |table| && table[k].macAddress == mac ==> table[k].ifc == ifc
  }

  /** One sighting of another address leaves a binding as it was. */
  lemma RehomingKeepsOthers(table: seq<CacheEntry>, capacity: nat, s: Sighting, mac: Mac, ifc: nat)
    requires s.mac != mac && BoundTo(table, mac, ifc)
    ensures BoundTo(LearnRehoming(table, capacity, s.ifc, s.mac), mac, ifc)
  {
    var r := LearnRehoming(table, capacity, s.ifc, s.mac);
    forall k | 0 <= k < |r| && r[k].macAddress == mac
      ensures r[k].ifc == ifc
    {
      if k < |table| {
        assert r[k] == table[k];
      }
    }
  }

  /** The table after one more sighting. */
  lemma LearnAllRehomingSnoc(table: seq<CacheEntry>, capacity: nat, seen: seq<Sighting>, x: Sighting)
    ensures LearnAllRehoming(table, capacity, seen + [x]) ==
            LearnRehoming(LearnAllRehoming(table, capacity, seen), capacity, x.ifc, x.mac)
  {
    assert (seen + [x])[..|seen|] == seen;
  }

  /** Sightings of other addresses leave a binding as it was. */
  lemma {:induction false} OthersKeepBinding(table: seq<CacheEntry>, capacity: nat, seen: seq<Sighting>, later: seq<Sighting>, mac: Mac, ifc: nat)
    requires BoundTo(LearnAllRehoming(table, capacity, seen), mac, ifc)
    requires forall k :: 0 <= k < |later| ==> later[k].mac != mac
    ensures BoundTo(LearnAllRehoming(table, capacity, seen + later), mac, ifc)
    decreases |later|
  {
    if |later| == 0 {
      assert seen + later == seen;
    } else {
      var shorter := later[..|later| - 1];
      var last := later[|later| - 1];
      OthersKeepBinding(table, capacity, seen, shorter, mac, ifc);
      assert seen + later == (seen + shorter) + [last];
      LearnAllRehomingSnoc(table, capacity, seen + shorter, last);
      RehomingKeepsOthers(LearnAllRehoming(table, capacity, seen + shorter), capacity, last, mac, ifc);
    }
  }

  /**
   * Under the vswitch.c policy an address is bound to the interface of its
   * most recent sighting: once `s` is seen, later sightings of other
   * addresses never move it.
   */
  lemma LatestSightingWins(table: seq<CacheEntry>, capacity: nat, seen: seq<Sighting>, s: Sighting, later: seq<Sighting>)
    requires forall k :: 0 <= k < |later| ==> later[k].mac != s.mac
    ensures BoundTo(LearnAllRehoming(table, capacity, seen + [s] + later), s.mac, s.ifc)
  {
    LearnAllRehomingSnoc(table, capacity, seen, s);
    OthersKeepBinding(table, capacity, seen + [s], later, s.mac, s.ifc);
  }
}
