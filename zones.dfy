/** The zone map of the PARTISN input: the voxel compositions are aggregated, the
    voxels are deduplicated into numbered zones, and the zones are laid out in the
    ZONES array. The records and the cell-material map are given, as the geometry
    library would produce them. */
module Zones {
  import opened Common
  import opened CoordSys
  import opened Aggregate
  import opened Dedup
  import opened Layout

  lemma CellsAssigned(rs: seq<Record>, assigns: map<int, string>)
    requires AllAssigned(rs, assigns)
    ensures forall v :: Assigned(CellsOf(rs, v), assigns)
  {
    forall v, j | 0 <= j < |CellsOf(rs, v)|
      ensures CellsOf(rs, v)[j] in assigns
    {
      RecordOfCell(rs, v, j);
    }
  }

  /** The composition of every voxel of the records, keyed by voxel index. */
  ghost function Compositions(rs: seq<Record>, assigns: map<int, string>): map<nat, Composition>
    requires AllAssigned(rs, assigns)
  {
    CellsAssigned(rs, assigns);
    map v | v in VoxelsOf(rs) :: VoxelComposition(rs, assigns, v)
  }

  /** The map that gives keys[t] the value zones[t], built by assigning in order. */
  function Pairing(keys: seq<nat>, zones: seq<nat>): map<nat, nat>
    requires |keys| == |zones|
  {
    if |keys| == 0 then map[]
    else Pairing(keys[..|keys| - 1], zones[..|zones| - 1])[keys[|keys| - 1] := zones[|zones| - 1]]
  }

  lemma {:induction false} PairingKeys(keys: seq<nat>, zones: seq<nat>)
    requires |keys| == |zones|
    ensures forall k :: k in Pairing(keys, zones) <==> k in keys
  {
    if |keys| > 0 {
      var n := |keys| - 1;
      PairingKeys(keys[..n], zones[..n]);
      assert keys == keys[..n] + [keys[n]];
    }
  }

  /** With distinct keys, each key is paired with the value at its own position. */
  lemma {:induction false} PairingLookup(keys: seq<nat>, zones: seq<nat>, t: nat)
    requires |keys| == |zones| && t < |keys|
    requires forall i, j :: 0 <= i < j < |keys| ==> keys[i] < keys[j]
    ensures keys[t] in Pairing(keys, zones) && Pairing(keys, zones)[keys[t]] == zones[t]
  {
    var n := |keys| - 1;
    if t < n {
      PairingLookup(keys[..n], zones[..n], t);
    }
  }

  /** The zone of every voxel, as the scan hands them out visiting the voxels in
      increasing index order. */
  ghost function ZoneMap(comps: map<nat, Composition>): map<nat, nat> {
    Pairing(Ascending(comps.Keys), Deduplicate(Visited(comps)).zones)
  }

  /** The registered zones, keyed by zone number. */
  ghost function ZoneRegistry(comps: map<nat, Composition>): map<nat, Composition> {
    RegistryMap(Deduplicate(Visited(comps)).registry)
  }

  /** Where a voxel stands in the visiting order, and the zone it receives there. */
  lemma VoxelPosition(comps: map<nat, Composition>, v: nat) returns (t: nat)
    requires v in comps
    ensures t < |Ascending(comps.Keys)| && Ascending(comps.Keys)[t] == v
    ensures Visited(comps)[t] == comps[v]
    ensures v in ZoneMap(comps) && ZoneMap(comps)[v] == Deduplicate(Visited(comps)).zones[t]
  {
    var keys := Ascending(comps.Keys);
    AscendingMembers(comps.Keys);
    AscendingIncreasing(comps.Keys);
    t :| 0 <= t < |keys| && keys[t] == v;
    PairingLookup(keys, Deduplicate(Visited(comps)).zones, t);
  }

  /** The voxels of the zone map are the voxels of the compositions. */
  lemma ZoneMapKeys(comps: map<nat, Composition>)
    ensures ZoneMap(comps).Keys == comps.Keys
  {
    AscendingMembers(comps.Keys);
    PairingKeys(Ascending(comps.Keys), Deduplicate(Visited(comps)).zones);
  }

  /** The map the scan fills is the zone map. */
  lemma ScanIsZoneMap(comps: map<nat, Composition>, voxelZone: map<nat, nat>)
    requires voxelZone.Keys == comps.Keys
    requires forall t :: 0 <= t < |Ascending(comps.Keys)| ==>
               Ascending(comps.Keys)[t] in voxelZone &&
               voxelZone[Ascending(comps.Keys)[t]] == Deduplicate(Visited(comps)).zones[t]
    ensures voxelZone == ZoneMap(comps)
  {
    var vz := ZoneMap(comps);
    forall v | v in comps
      ensures v in vz && vz[v] == voxelZone[v]
    {
      var t := VoxelPosition(comps, v);
    }
    ZoneMapKeys(comps);
  }

  // ---- what the zone map promises, voxel by voxel ----

  /** Each voxel has a zone, and it is 0 exactly for the vacuum and graveyard voxels. */
  lemma VoidVoxels(comps: map<nat, Composition>)
    ensures ZoneMap(comps).Keys == comps.Keys
    ensures forall v :: v in comps ==> (ZoneMap(comps)[v] == 0 <==> IsVoid(comps[v]))
  {
    forall v | v in comps
      ensures v in ZoneMap(comps) && (ZoneMap(comps)[v] == 0 <==> IsVoid(comps[v]))
    {
      var t := VoxelPosition(comps, v);
      VoidZone(Visited(comps));
    }
    ZoneMapKeys(comps);
  }

  /** A non-void voxel's zone is registered, its composition matches that zone's, and
      it matches no zone with a smaller number. */
  lemma MatchedVoxels(comps: map<nat, Composition>, v: nat)
    requires v in comps && !IsVoid(comps[v])
    ensures v in ZoneMap(comps)
    ensures var y := ZoneMap(comps)[v];
      && y in ZoneRegistry(comps) && Matches(comps[v], ZoneRegistry(comps)[y])
      && forall y' :: 1 <= y' < y ==> !Matches(comps[v], ZoneRegistry(comps)[y'])
  {
    var t := VoxelPosition(comps, v);
    ZoneIsFirstMatch(Visited(comps), t);
    FirstMatchNumbered(comps[v], Deduplicate(Visited(comps)).registry, ZoneMap(comps)[v]);
  }

  /** The first match, read in zone numbers of the registry dictionary. */
  lemma FirstMatchNumbered(c: Composition, reg: seq<Composition>, y: nat)
    requires 1 <= y <= |reg| && FirstMatch(c, reg) == Some(y - 1)
    ensures y in RegistryMap(reg) && Matches(c, RegistryMap(reg)[y])
    ensures forall y' :: 1 <= y' < y ==> !Matches(c, RegistryMap(reg)[y'])
  {
  }

  /** The zone numbers are 1 to NZONE, the number of registered zones; no zone is void;
      and no registered zone matches one registered before it. */
  lemma RegisteredZones(comps: map<nat, Composition>)
    ensures var zm := ZoneRegistry(comps);
      && (forall y :: y in zm <==> 1 <= y <= |zm|)
      && (forall y :: y in zm ==> !IsVoid(zm[y]))
      && (forall j, k :: j in zm && k in zm && j < k ==> !Matches(zm[k], zm[j]))
      && (forall v :: v in comps ==> v in ZoneMap(comps) && ZoneMap(comps)[v] <= |zm|)
  {
    var cs := Visited(comps);
    RegistryMapSize(Deduplicate(cs).registry);
    VoidZone(cs);
    RegistryDistinct(cs);
    ZonesContiguous(cs);
    forall v | v in comps
      ensures v in ZoneMap(comps) && ZoneMap(comps)[v] <= |ZoneRegistry(comps)|
    {
      var t := VoxelPosition(comps, v);
    }
  }

  /** Visiting order and index order agree. */
  lemma PositionOrder(comps: map<nat, Composition>, t: nat, t': nat)
    requires t < |Ascending(comps.Keys)| && t' < |Ascending(comps.Keys)|
    ensures Ascending(comps.Keys)[t'] < Ascending(comps.Keys)[t] <==> t' < t
  {
    AscendingIncreasing(comps.Keys);
  }

  /** Every registered zone was created by a voxel: the voxel of least index among
      those with that zone, whose composition is what the zone records. */
  lemma ZoneCreators(comps: map<nat, Composition>, y: nat)
    requires y in ZoneRegistry(comps)
    ensures ZoneMap(comps).Keys == comps.Keys
    ensures exists v :: v in comps && ZoneMap(comps)[v] == y && comps[v] == ZoneRegistry(comps)[y]
                        && forall u :: u in comps && u < v ==> ZoneMap(comps)[u] != y
  {
    var cs := Visited(comps);
    var a := Deduplicate(cs);
    ZoneMapKeys(comps);
    RegistryFromVoxels(cs, y - 1);
    var t :| 0 <= t < |cs| && a.zones[t] == y && cs[t] == a.registry[y - 1]
             && forall j :: 0 <= j < t ==> a.zones[j] != y;
    var v := Ascending(comps.Keys)[t];
    var t' := VoxelPosition(comps, v);
    AscendingIncreasing(comps.Keys);
    assert t' == t;
    forall u | u in comps && u < v
      ensures ZoneMap(comps)[u] != y
    {
      var tu := VoxelPosition(comps, u);
      PositionOrder(comps, t, tu);
    }
  }

  // ---- the pipeline ----

  /** The ZONES array and the registered zones, keyed by zone number. */
  datatype ZoneArrays = ZoneArrays(grid: array2<nat>, zonesMats: map<nat, Composition>)

  /** The array part of a result. */
  function GridResult(r: Result<ZoneArrays>): Result<array2<nat>> {
    if r.Ok? then Ok(r.value.grid) else Err(r.error)
  }

  /** Aggregates the records, assigns the zones, and lays them out in the ZONES array.
      A cell without a material assignment fails first; otherwise a negative grid
      dimension fails; otherwise the fill fails at the first voxel index missing. */
  method GetZones(rs: seq<Record>, assigns: map<int, string>, bounds: map<Axis, seq<real>>)
    returns (r: Result<ZoneArrays>)
    ensures !AllAssigned(rs, assigns) ==>
              && r.Err? && r.error.MissingCell? && r.error.cell !in assigns
              && exists i :: 0 <= i < |rs| && rs[i].cell == r.error.cell
    ensures AllAssigned(rs, assigns) && Shape(bounds).Err? ==> r == Err(NegativeDimension)
    ensures AllAssigned(rs, assigns) && Shape(bounds).Ok? ==>
              var comps := Compositions(rs, assigns);
              && GridOf(GridResult(r), Shape(bounds).value.0, Shape(bounds).value.1, ZoneMap(comps))
              && (r.Ok? ==> r.value.zonesMats == ZoneRegistry(comps))
    ensures r.Ok? ==> fresh(r.value.grid)
  {
    var agg := Aggregate.Aggregate(rs, assigns);
    if agg.Err? {
      return Err(agg.error);
    }
    var comps := agg.value;
    assert comps == Compositions(rs, assigns);
    var voxelZone, zonesMats := AssignZones(comps);
    ScanIsZoneMap(comps, voxelZone);
    var g := FillZones(bounds, voxelZone);
    if g.Err? {
      return Err(g.error);
    }
    r := Ok(ZoneArrays(g.value, zonesMats));
    assert GridResult(r) == g;
  }
}
