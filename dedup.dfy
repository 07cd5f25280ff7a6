/** Zone deduplication: voxels are visited in increasing index order; a voxel whose
    only material is vacuum or graveyard gets zone 0, any other voxel reuses the
    first registered zone its composition matches, or registers a new zone whose
    number is one more than the current count. */
module Dedup {
  import opened Common
  import opened Aggregate

  /** The tolerances of numpy's allclose as called here: rtol is given, atol is the default. */
  const Rtol: real := 0.00000001
  const Atol: real := 0.00000001

  function Abs(x: real): real {
    if x < 0.0 then -x else x
  }

  /** numpy's element test |a - b| <= atol + rtol * |b|; it is not symmetric, and b
      is the fraction of the registered zone. */
  predicate Close(a: real, b: real) {
    Abs(a - b) <= Atol + Rtol * Abs(b)
  }

  predicate AllClose(a: seq<real>, b: seq<real>) {
    |a| == |b| && forall i :: 0 <= i < |a| ==> Close(a[i], b[i])
  }

  /** A voxel composition matches a registered zone when the material lists are equal
      position by position and the fractions are close to the zone's. */
  predicate Matches(c: Composition, zone: Composition) {
    c.mat == zone.mat && AllClose(c.volFrac, zone.volFrac)
  }

  /** Exactly one of the four sentinel lists: a single vacuum or graveyard material. */
  predicate IsVoid(c: Composition): (b: bool)
    ensures b ==> |c.mat| == 1
  {
    c.mat in [["mat:Vacuum"], ["mat:vacuum"], ["mat:graveyard"], ["mat:Graveyard"]]
  }

  /** The position of the first registered zone that c matches. */
  function FirstMatch(c: Composition, reg: seq<Composition>): (r: Option<nat>)
    ensures r.Some? ==> r.value < |reg| && Matches(c, reg[r.value])
                        && forall j :: 0 <= j < r.value ==> !Matches(c, reg[j])
    ensures r.None? ==> forall j :: 0 <= j < |reg| ==> !Matches(c, reg[j])
  {
    if |reg| == 0 then None
    else
      match FirstMatch(c, reg[..|reg| - 1])
      case Some(k) => Some(k)
      case None => if Matches(c, reg[|reg| - 1]) then Some(|reg| - 1) else None
  }

  /** The zone of each voxel visited so far, and the registered zones: position k
      of the registry holds the composition of zone k + 1. */
  datatype Assignment = Assignment(zones: seq<nat>, registry: seq<Composition>)

  /** Visiting one more voxel. */
  function Next(a: Assignment, c: Composition): Assignment {
    if IsVoid(c) then Assignment(a.zones + [0], a.registry)
    else
      match FirstMatch(c, a.registry)
      case Some(k) => Assignment(a.zones + [k + 1], a.registry)
      case None => Assignment(a.zones + [|a.registry| + 1], a.registry + [c])
  }

  /** The assignment after visiting the compositions in order. */
  function Deduplicate(cs: seq<Composition>): (a: Assignment)
    ensures |a.zones| == |cs|
  {
    if |cs| == 0 then Assignment([], [])
    else Next(Deduplicate(cs[..|cs| - 1]), cs[|cs| - 1])
  }

  lemma DeduplicateAppend(cs: seq<Composition>, c: Composition)
    ensures Deduplicate(cs + [c]) == Next(Deduplicate(cs), c)
  {
    assert (cs + [c])[..|cs|] == cs;
  }

  /** The largest zone number handed out. */
  function MaxZone(zs: seq<nat>): nat {
    if |zs| == 0 then 0
    else
      var m := MaxZone(zs[..|zs| - 1]);
      if zs[|zs| - 1] > m then zs[|zs| - 1] else m
  }

  // ---- the invariant of the scan, one fact per predicate ----

  ghost predicate VoidRule(cs: seq<Composition>, a: Assignment)
    requires |a.zones| == |cs|
  {
    forall i :: 0 <= i < |cs| ==> (a.zones[i] == 0 <==> IsVoid(cs[i]))
  }

  ghost predicate InRange(a: Assignment) {
    forall i :: 0 <= i < |a.zones| ==> a.zones[i] <= |a.registry|
  }

  /** Every non-void voxel's zone is the first registered zone it matches. */
  ghost predicate FirstMatching(cs: seq<Composition>, a: Assignment)
    requires |a.zones| == |cs| && InRange(a)
  {
    forall i :: 0 <= i < |cs| && a.zones[i] > 0 ==>
      && Matches(cs[i], a.registry[a.zones[i] - 1])
      && forall j :: 0 <= j < a.zones[i] - 1 ==> !Matches(cs[i], a.registry[j])
  }

  /** Voxel i is the first that was given zone k + 1, and zone k + 1 holds its composition. */
  ghost predicate CreatorOf(cs: seq<Composition>, a: Assignment, k: int, i: int) {
    && 0 <= i < |cs| && i < |a.zones| && 0 <= k < |a.registry|
    && a.zones[i] == k + 1 && cs[i] == a.registry[k]
    && forall j :: 0 <= j < i ==> a.zones[j] != k + 1
  }

  ghost predicate HasCreator(cs: seq<Composition>, a: Assignment, k: int) {
    exists i :: CreatorOf(cs, a, k, i)
  }

  /** Zone k + 1 holds the composition of the first voxel that was given it. */
  ghost predicate Created(cs: seq<Composition>, a: Assignment) {
    forall k :: 0 <= k < |a.registry| ==> HasCreator(cs, a, k)
  }

  /** A later registered zone never matches an earlier one. */
  ghost predicate Distinct(reg: seq<Composition>) {
    forall j, k :: 0 <= j < k < |reg| ==> !Matches(reg[k], reg[j])
  }

  /** Numbers are handed out in order: a voxel's zone is at most one more than any
      seen before it, and the count of zones is the largest number handed out. */
  ghost predicate FirstEncounter(a: Assignment) {
    && (forall i :: 0 <= i < |a.zones| ==> a.zones[i] <= MaxZone(a.zones[..i]) + 1)
    && MaxZone(a.zones) == |a.registry|
  }

  ghost predicate Inv(cs: seq<Composition>, a: Assignment) {
    && |a.zones| == |cs|
    && InRange(a)
    && VoidRule(cs, a)
    && FirstMatching(cs, a)
    && Created(cs, a)
    && Distinct(a.registry)
    && FirstEncounter(a)
  }

  lemma MatchesReflexive(c: Composition)
    ensures Matches(c, c)
  {
    assert forall i :: 0 <= i < |c.volFrac| ==> Close(c.volFrac[i], c.volFrac[i]);
  }

  lemma MaxZoneAppend(zs: seq<nat>, z: nat)
    ensures MaxZone(zs + [z]) == if z > MaxZone(zs) then z else MaxZone(zs)
    ensures forall i :: 0 <= i <= |zs| ==> (zs + [z])[..i] == zs[..i]
  {
    assert (zs + [z])[..|zs|] == zs;
  }

  /** The facts about Next that every part of the invariant uses. */
  lemma NextShape(a: Assignment, c: Composition)
    ensures var a' := Next(a, c);
      && a'.zones == a.zones + [a'.zones[|a.zones|]]
      && (IsVoid(c) ==> a'.zones[|a.zones|] == 0 && a'.registry == a.registry)
      && (!IsVoid(c) && FirstMatch(c, a.registry).Some? ==>
            a'.zones[|a.zones|] == FirstMatch(c, a.registry).value + 1 && a'.registry == a.registry)
      && (!IsVoid(c) && FirstMatch(c, a.registry).None? ==>
            a'.zones[|a.zones|] == |a.registry| + 1 && a'.registry == a.registry + [c])
  {
  }

  lemma NextInRange(a: Assignment, c: Composition)
    requires InRange(a)
    ensures InRange(Next(a, c))
  {
    NextShape(a, c);
  }

  lemma NextVoidRule(cs: seq<Composition>, a: Assignment, c: Composition)
    requires |a.zones| == |cs| && VoidRule(cs, a)
    ensures |Next(a, c).zones| == |cs + [c]| && VoidRule(cs + [c], Next(a, c))
  {
    NextShape(a, c);
  }

  lemma NextFirstMatching(cs: seq<Composition>, a: Assignment, c: Composition)
    requires |a.zones| == |cs| && InRange(a) && FirstMatching(cs, a)
    ensures |Next(a, c).zones| == |cs + [c]| && InRange(Next(a, c)) && FirstMatching(cs + [c], Next(a, c))
  {
    NextShape(a, c);
    NextInRange(a, c);
    if !IsVoid(c) && FirstMatch(c, a.registry).None? {
      MatchesReflexive(c);
    }
  }

  lemma NextCreated(cs: seq<Composition>, a: Assignment, c: Composition)
    requires |a.zones| == |cs| && InRange(a) && Created(cs, a)
    ensures |Next(a, c).zones| == |cs + [c]| && Created(cs + [c], Next(a, c))
  {
    var a' := Next(a, c);
    var cs' := cs + [c];
    var n := |cs|;
    NextShape(a, c);
    forall k | 0 <= k < |a'.registry|
      ensures HasCreator(cs', a', k)
    {
      if k < |a.registry| {
        assert HasCreator(cs, a, k);
        var i :| CreatorOf(cs, a, k, i);
        assert CreatorOf(cs', a', k, i);
      } else {
        assert CreatorOf(cs', a', k, n);
      }
    }
  }

  lemma NextDistinct(a: Assignment, c: Composition)
    requires Distinct(a.registry)
    ensures Distinct(Next(a, c).registry)
  {
    NextShape(a, c);
  }

  lemma NextFirstEncounter(a: Assignment, c: Composition)
    requires InRange(a) && FirstEncounter(a)
    ensures FirstEncounter(Next(a, c))
  {
    var a' := Next(a, c);
    NextShape(a, c);
    MaxZoneAppend(a.zones, a'.zones[|a.zones|]);
  }

  lemma NextKeepsInv(cs: seq<Composition>, a: Assignment, c: Composition)
    requires Inv(cs, a)
    ensures Inv(cs + [c], Next(a, c))
  {
    NextInRange(a, c);
    NextVoidRule(cs, a, c);
    NextFirstMatching(cs, a, c);
    NextCreated(cs, a, c);
    NextDistinct(a, c);
    NextFirstEncounter(a, c);
  }

  /** The invariant holds of every deduplication. */
  lemma {:induction false} DeduplicateInv(cs: seq<Composition>)
    ensures Inv(cs, Deduplicate(cs))
  {
    if |cs| > 0 {
      var n := |cs| - 1;
      DeduplicateInv(cs[..n]);
      NextKeepsInv(cs[..n], Deduplicate(cs[..n]), cs[n]);
      assert cs[..n] + [cs[n]] == cs;
    }
  }

  // ---- what the deduplication promises ----

  /** Zone 0 is given exactly to the vacuum and graveyard voxels, and no such
      composition is ever registered. */
  lemma {:induction false} VoidZone(cs: seq<Composition>)
    ensures var a := Deduplicate(cs);
      && (forall i :: 0 <= i < |cs| ==> (a.zones[i] == 0 <==> IsVoid(cs[i])))
      && (forall k :: 0 <= k < |a.registry| ==> !IsVoid(a.registry[k]))
  {
    DeduplicateCreated(cs);
    var a := Deduplicate(cs);
    forall k | 0 <= k < |a.registry|
      ensures !IsVoid(a.registry[k])
    {
      assert HasCreator(cs, a, k);
      var i :| CreatorOf(cs, a, k, i);
    }
  }

  /** Some voxel received zone number z. */
  ghost predicate Used(zs: seq<nat>, z: nat) {
    exists i :: 0 <= i < |zs| && zs[i] == z
  }

  /** Zone numbers run from 1 to the number of registered zones without gaps. */
  lemma ZonesContiguous(cs: seq<Composition>)
    ensures var a := Deduplicate(cs);
      && (forall i :: 0 <= i < |cs| ==> a.zones[i] <= |a.registry|)
      && (forall z :: 1 <= z <= |a.registry| ==> Used(a.zones, z))
  {
    DeduplicateCreated(cs);
    var a := Deduplicate(cs);
    forall z | 1 <= z <= |a.registry|
      ensures Used(a.zones, z)
    {
      assert HasCreator(cs, a, z - 1);
      var i :| CreatorOf(cs, a, z - 1, i);
      assert a.zones[i] == z;
    }
  }

  /** Zone numbers are handed out in order of first encounter: each voxel's zone is
      at most one more than the largest number given before it, and the number of
      registered zones is the largest number given. */
  lemma ZonesInEncounterOrder(cs: seq<Composition>)
    ensures var a := Deduplicate(cs);
      && (forall i :: 0 <= i < |cs| ==> a.zones[i] <= MaxZone(a.zones[..i]) + 1)
      && MaxZone(a.zones) == |a.registry|
  {
    DeduplicateInv(cs);
  }

  lemma DeduplicateCreated(cs: seq<Composition>)
    ensures var a := Deduplicate(cs); InRange(a) && VoidRule(cs, a) && Created(cs, a)
  {
    DeduplicateInv(cs);
  }

  lemma DeduplicateMatching(cs: seq<Composition>)
    ensures var a := Deduplicate(cs); InRange(a) && VoidRule(cs, a) && FirstMatching(cs, a)
  {
    DeduplicateInv(cs);
  }

  /** The first matching position is the one that matches with none before it. */
  lemma FirstMatchIs(c: Composition, reg: seq<Composition>, k: nat)
    requires k < |reg| && Matches(c, reg[k])
    requires forall j :: 0 <= j < k ==> !Matches(c, reg[j])
    ensures FirstMatch(c, reg) == Some(k)
  {
    assert FirstMatch(c, reg).Some?;
  }

  /** A non-void voxel's zone is the first registered zone its composition matches. */
  lemma {:induction false} ZoneIsFirstMatch(cs: seq<Composition>, i: nat)
    requires i < |cs| && !IsVoid(cs[i])
    ensures var a := Deduplicate(cs);
      && 1 <= a.zones[i] <= |a.registry|
      && FirstMatch(cs[i], a.registry) == Some(a.zones[i] - 1)
  {
    DeduplicateMatching(cs);
    var a := Deduplicate(cs);
    var z := a.zones[i];
    assert z > 0;
    FirstMatchIs(cs[i], a.registry, z - 1);
  }

  /** No registered zone matches a zone registered before it. */
  lemma {:induction false} RegistryDistinct(cs: seq<Composition>)
    ensures var reg := Deduplicate(cs).registry;
      forall j, k :: 0 <= j < k < |reg| ==> !Matches(reg[k], reg[j])
  {
    DeduplicateInv(cs);
  }

  /** Every registered zone holds the composition of the first voxel that received it. */
  lemma RegistryFromVoxels(cs: seq<Composition>, k: nat)
    requires k < |Deduplicate(cs).registry|
    ensures var a := Deduplicate(cs);
      exists i :: 0 <= i < |cs| && a.zones[i] == k + 1 && cs[i] == a.registry[k]
                  && forall j :: 0 <= j < i ==> a.zones[j] != k + 1
  {
    DeduplicateCreated(cs);
    var a := Deduplicate(cs);
    assert HasCreator(cs, a, k);
    var i :| CreatorOf(cs, a, k, i);
  }

  /** Voxels with identical compositions share a zone. */
  lemma SameCompositionSameZone(cs: seq<Composition>, i: nat, j: nat)
    requires i < |cs| && j < |cs| && cs[i] == cs[j]
    ensures Deduplicate(cs).zones[i] == Deduplicate(cs).zones[j]
  {
    DeduplicateInv(cs);
    if !IsVoid(cs[i]) {
      ZoneIsFirstMatch(cs, i);
      ZoneIsFirstMatch(cs, j);
    }
  }

  // ---- the tolerance test is not an equivalence ----

  /** A one-material composition whose name is five characters long is none of the
      void spellings. */
  lemma ShortNameNotVoid(c: Composition)
    requires |c.mat| == 1 && |c.mat[0]| == 5
    ensures !IsVoid(c)
  {
    assert |"mat:Vacuum"| == 10 && |"mat:vacuum"| == 10;
    assert |"mat:graveyard"| == 13 && |"mat:Graveyard"| == 13;
  }

  /** The scan over three non-void voxels, given which of them the registered zones match. */
  lemma ThreeVoxels(c0: Composition, c1: Composition, c2: Composition)
    requires !IsVoid(c0) && !IsVoid(c1) && !IsVoid(c2)
    requires Matches(c2, c0)
    ensures Matches(c1, c0) ==> Deduplicate([c0, c1, c2]).zones == [1, 1, 1]
    ensures !Matches(c1, c0) ==> Deduplicate([c0, c1, c2]).zones == [1, 2, 1]
  {
    DeduplicateAppend([], c0);
    assert [] + [c0] == [c0];
    assert Deduplicate([c0]) == Assignment([1], [c0]);
    DeduplicateAppend([c0], c1);
    assert [c0] + [c1] == [c0, c1];
    DeduplicateAppend([c0, c1], c2);
    assert [c0, c1] + [c2] == [c0, c1, c2];
    if Matches(c1, c0) {
      assert FirstMatch(c1, [c0]) == Some(0);
      assert Deduplicate([c0, c1]) == Assignment([1, 1], [c0]);
      assert FirstMatch(c2, [c0]) == Some(0);
    } else {
      assert FirstMatch(c1, [c0]) == None;
      assert Deduplicate([c0, c1]) == Assignment([1, 2], [c0, c1]);
      assert FirstMatch(c2, [c0, c1]) == Some(0);
    }
  }

  /** Two voxels can share a zone although neither's fractions are close to the
      other's: both are close to the zone's registered fractions. */
  lemma SharedZoneNotClose()
    ensures var c0 := Composition(["mat:A"], [0.5]);
      var c1 := Composition(["mat:A"], [0.500000009]);
      var c2 := Composition(["mat:A"], [0.499999991]);
      && Deduplicate([c0, c1, c2]).zones == [1, 1, 1]
      && !Matches(c1, c2) && !Matches(c2, c1)
  {
    var c0 := Composition(["mat:A"], [0.5]);
    var c1 := Composition(["mat:A"], [0.500000009]);
    var c2 := Composition(["mat:A"], [0.499999991]);
    ShortNameNotVoid(c0);
    ShortNameNotVoid(c1);
    ShortNameNotVoid(c2);
    assert Close(c1.volFrac[0], c0.volFrac[0]) && Close(c2.volFrac[0], c0.volFrac[0]);
    assert !Close(c1.volFrac[0], c2.volFrac[0]) && !Close(c2.volFrac[0], c1.volFrac[0]);
    ThreeVoxels(c0, c1, c2);
  }

  /** Two voxels whose fractions are close to each other can receive different zones:
      the first match wins, and it is compared with the registered fractions only. */
  lemma CloseVoxelsSplit()
    ensures var c0 := Composition(["mat:A"], [0.5]);
      var c1 := Composition(["mat:A"], [0.50000002]);
      var c2 := Composition(["mat:A"], [0.500000012]);
      && Deduplicate([c0, c1, c2]).zones == [1, 2, 1]
      && Matches(c1, c2) && Matches(c2, c1)
  {
    var c0 := Composition(["mat:A"], [0.5]);
    var c1 := Composition(["mat:A"], [0.50000002]);
    var c2 := Composition(["mat:A"], [0.500000012]);
    ShortNameNotVoid(c0);
    ShortNameNotVoid(c1);
    ShortNameNotVoid(c2);
    assert !Close(c1.volFrac[0], c0.volFrac[0]) && Close(c2.volFrac[0], c0.volFrac[0]);
    assert Close(c1.volFrac[0], c2.volFrac[0]) && Close(c2.volFrac[0], c1.volFrac[0]);
    ThreeVoxels(c0, c1, c2);
  }

  // ---- the scan as the source runs it ----

  /** The voxel compositions in increasing voxel order. */
  function Visited(comps: map<nat, Composition>): (cs: seq<Composition>)
    ensures |cs| == |Ascending(comps.Keys)|
    ensures forall t :: 0 <= t < |cs| ==> Ascending(comps.Keys)[t] in comps && cs[t] == comps[Ascending(comps.Keys)[t]]
  {
    var keys := Ascending(comps.Keys);
    AscendingMembers(comps.Keys);
    seq(|keys|, t requires 0 <= t < |keys| => comps[keys[t]])
  }

  /** The registry as a dictionary keyed by zone number. */
  function RegistryMap(reg: seq<Composition>): (m: map<nat, Composition>)
    ensures forall k :: k in m <==> 1 <= k <= |reg|
    ensures forall k :: k in m ==> m[k] == reg[k - 1]
  {
    if |reg| == 0 then map[]
    else RegistryMap(reg[..|reg| - 1])[|reg| := reg[|reg| - 1]]
  }

  /** NZONE, the size of the registry dictionary, is the number of registered zones. */
  lemma {:induction false} RegistryMapSize(reg: seq<Composition>)
    ensures |RegistryMap(reg)| == |reg|
  {
    if |reg| > 0 {
      var n := |reg| - 1;
      RegistryMapSize(reg[..n]);
      assert n + 1 !in RegistryMap(reg[..n]);
    }
  }

  /** The scan over the registered zones, zone 1 first: stops at the first zone the
      composition matches, recording it in y; the flag says whether the last zone
      compared matched, and keeps its old value when no zone is registered. */
  method ScanZones(vals: Composition, zonesMats: map<nat, Composition>, z: nat, matched: bool, y: nat,
                   ghost reg: seq<Composition>)
    returns (matched': bool, y': nat)
    requires z == |reg| && zonesMats == RegistryMap(reg)
    ensures z == 0 ==> matched' == matched && y' == y
    ensures z > 0 ==> (matched' <==> FirstMatch(vals, reg).Some?)
    ensures z > 0 && matched' ==> FirstMatch(vals, reg) == Some(y' - 1)
  {
    matched', y' := matched, y;
    var zone := 1;
    while zone <= z
      invariant 1 <= zone <= z + 1
      invariant forall j :: 0 <= j < zone - 1 ==> !Matches(vals, reg[j])
      invariant zone > 1 ==> !matched'
      invariant zone == 1 ==> matched' == matched && y' == y
    {
      assert zonesMats[zone] == reg[zone - 1];
      if Matches(vals, zonesMats[zone]) {
        matched' := true;
        y' := zone;
        return;
      } else {
        matched' := false;
      }
      zone := zone + 1;
    }
  }

  /** One voxel of the scan: the zone search, then the vacuum test and, for a
      composition no registered zone matches, the registration of a new zone.
      The flags `matched` and `first` and the last matched zone `y` carry over
      from the previous voxel, as in the source. While no zone is registered the
      match flag is false, so `first` adds nothing to the no-match test. */
  method Visit(vals: Composition, zonesMats: map<nat, Composition>, z: nat, matched: bool, first: bool, y: nat,
               ghost zones: seq<nat>, ghost reg: seq<Composition>)
    returns (zv: nat, zonesMats': map<nat, Composition>, z': nat, matched': bool, first': bool, y': nat)
    requires z == |reg| && zonesMats == RegistryMap(reg) && (first <==> z == 0)
    requires z == 0 ==> !matched
    ensures !matched' <==> FirstMatch(vals, reg).None?
    ensures (first || !matched') == !matched'
    ensures z' == 0 ==> !matched'
    ensures Next(Assignment(zones, reg), vals).zones == zones + [zv]
    ensures z' == |Next(Assignment(zones, reg), vals).registry|
    ensures zonesMats' == RegistryMap(Next(Assignment(zones, reg), vals).registry)
    ensures first' <==> z' == 0
  {
    matched', y' := ScanZones(vals, zonesMats, z, matched, y, reg);
    assert (first || !matched') <==> FirstMatch(vals, reg).None?;
    NextShape(Assignment(zones, reg), vals);
    zonesMats', z', first' := zonesMats, z, first;
    if first || !matched' {
      if IsVoid(vals) {
        zv := 0;
      } else {
        z' := z + 1;
        zonesMats' := zonesMats[z' := vals];
        zv := z';
        first' := false;
      }
    } else {
      if IsVoid(vals) {
        zv := 0;
      } else {
        zv := y';
      }
    }
  }

  /** Extending the visited prefix by one voxel extends the zone table by one entry. */
  lemma ZonesStep(done: seq<nat>, zones: seq<nat>, vz: map<nat, nat>, i: nat, zv: nat)
    requires |done| == |zones|
    requires forall t :: 0 <= t < |done| ==> done[t] in vz && done[t] != i && vz[done[t]] == zones[t]
    ensures forall t :: 0 <= t < |done| + 1 ==>
              (done + [i])[t] in vz[i := zv] && vz[i := zv][(done + [i])[t]] == (zones + [zv])[t]
  {
  }

  /** Moving voxel `i` from the unvisited set to the visited prefix keeps the
      prefix and the visited compositions in step. */
  lemma DoneStep(comps: map<nat, Composition>, done: seq<nat>, cs: seq<Composition>, todo: set<nat>, i: nat)
    requires i in todo && todo <= comps.Keys && |cs| == |done|
    requires forall t :: 0 <= t < |done| ==> done[t] in comps && done[t] !in todo && cs[t] == comps[done[t]]
    ensures forall t :: 0 <= t < |done| + 1 ==>
              (done + [i])[t] in comps && (done + [i])[t] !in todo - {i} && (cs + [comps[i]])[t] == comps[(done + [i])[t]]
  {
  }

  /** Moving the least unvisited voxel to the visited prefix keeps the ascending order. */
  lemma AscendingStep(done: seq<nat>, todo: set<nat>)
    requires todo != {}
    ensures done + Ascending(todo) == (done + [Least(todo)]) + Ascending(todo - {Least(todo)})
  {
    assert Ascending(todo) == [Least(todo)] + Ascending(todo - {Least(todo)});
  }

  /** The state of the scan after the visited voxels `done`, whose compositions are
      `cs`, with `todo` still to visit. */
  ghost predicate ScanState(comps: map<nat, Composition>, todo: set<nat>, done: seq<nat>, cs: seq<Composition>,
                            voxelZone: map<nat, nat>, z: nat, zonesMats: map<nat, Composition>, first: bool)
  {
    && todo <= comps.Keys
    && Ascending(comps.Keys) == done + Ascending(todo)
    && |cs| == |done|
    && (forall t :: 0 <= t < |done| ==> done[t] in comps && done[t] !in todo && cs[t] == comps[done[t]])
    && voxelZone.Keys == comps.Keys - todo
    && (forall t :: 0 <= t < |done| ==> voxelZone[done[t]] == Deduplicate(cs).zones[t])
    && z == |Deduplicate(cs).registry|
    && zonesMats == RegistryMap(Deduplicate(cs).registry)
    && (first <==> z == 0)
  }

  /** Visiting the least unvisited voxel, with the outcome `Visit` promises, keeps the
      scan state. */
  lemma ScanStateStep(comps: map<nat, Composition>, todo: set<nat>, done: seq<nat>, cs: seq<Composition>,
                      voxelZone: map<nat, nat>, z: nat, zonesMats: map<nat, Composition>, first: bool,
                      zv: nat, z': nat, zonesMats': map<nat, Composition>, first': bool)
    requires ScanState(comps, todo, done, cs, voxelZone, z, zonesMats, first)
    requires todo != {}
    requires var a := Next(Deduplicate(cs), comps[Least(todo)]);
      && a.zones == Deduplicate(cs).zones + [zv]
      && z' == |a.registry|
      && zonesMats' == RegistryMap(a.registry)
      && (first' <==> z' == 0)
    ensures var i := Least(todo);
      ScanState(comps, todo - {i}, done + [i], cs + [comps[i]], voxelZone[i := zv], z', zonesMats', first')
  {
    var i := Least(todo);
    DeduplicateAppend(cs, comps[i]);
    ZonesStep(done, Deduplicate(cs).zones, voxelZone, i, zv);
    AscendingStep(done, todo);
    DoneStep(comps, done, cs, todo, i);
  }

  /** Once every voxel is visited, the zone table and the registry are those of the
      specification, taken over all voxels in increasing order. */
  lemma ScanStateDone(comps: map<nat, Composition>, done: seq<nat>, cs: seq<Composition>,
                      voxelZone: map<nat, nat>, z: nat, zonesMats: map<nat, Composition>, first: bool)
    requires ScanState(comps, {}, done, cs, voxelZone, z, zonesMats, first)
    ensures voxelZone.Keys == comps.Keys
    ensures forall t :: 0 <= t < |Ascending(comps.Keys)| ==>
              Ascending(comps.Keys)[t] in voxelZone &&
              voxelZone[Ascending(comps.Keys)[t]] == Deduplicate(Visited(comps)).zones[t]
    ensures zonesMats == RegistryMap(Deduplicate(Visited(comps)).registry)
    ensures |zonesMats| == |Deduplicate(Visited(comps)).registry|
  {
    assert Ascending({}) == [];
    assert done == Ascending(comps.Keys);
    assert cs == Visited(comps);
    RegistryMapSize(Deduplicate(cs).registry);
  }

  /** Visits the voxels in increasing index order; for each, scans the registered
      zones in increasing number for the first one its composition matches, then
      gives a vacuum or graveyard voxel zone 0, a matched voxel the matched zone,
      and any other voxel a newly registered zone numbered one more than the count. */
  method AssignZones(comps: map<nat, Composition>) returns (voxelZone: map<nat, nat>, zonesMats: map<nat, Composition>)
    ensures voxelZone.Keys == comps.Keys
    ensures forall t :: 0 <= t < |Ascending(comps.Keys)| ==>
              Ascending(comps.Keys)[t] in voxelZone &&
              voxelZone[Ascending(comps.Keys)[t]] == Deduplicate(Visited(comps)).zones[t]
    ensures zonesMats == RegistryMap(Deduplicate(Visited(comps)).registry)
    ensures |zonesMats| == |Deduplicate(Visited(comps)).registry|
  {
    voxelZone := map[];
    zonesMats := map[];
    var z: nat := 0;
    var matched := false;
    var first := true;
    var y: nat := 0;
    ghost var done: seq<nat> := [];
    ghost var cs: seq<Composition> := [];
    var todo := comps.Keys;
    while todo != {}
      invariant ScanState(comps, todo, done, cs, voxelZone, z, zonesMats, first)
      invariant z == 0 ==> !matched
      decreases todo
    {
      var i := Least(todo);
      var vals := comps[i];
      ghost var a := Deduplicate(cs);
      assert Assignment(a.zones, a.registry) == a;
      var zv, zonesMats', z', first';
      zv, zonesMats', z', matched, first', y := Visit(vals, zonesMats, z, matched, first, y, a.zones, a.registry);
      ScanStateStep(comps, todo, done, cs, voxelZone, z, zonesMats, first, zv, z', zonesMats', first');
      voxelZone := voxelZone[i := zv];
      zonesMats, z, first := zonesMats', z', first';
      done := done + [i];
      cs := cs + [vals];
      todo := todo - {i};
    }
    ScanStateDone(comps, done, cs, voxelZone, z, zonesMats, first);
  }
}
