/** Per-voxel composition aggregation: the discretization records are grouped by
    voxel, each cell is replaced by its material, and repeated materials within a
    voxel are merged by summing their volume fractions. */
module Aggregate {
  import opened Common

  /** One discretization record: a voxel index, a geometry cell, a volume fraction. */
  datatype Record = Record(voxel: nat, cell: int, volFrac: real)

  /** The cells and fractions of one voxel, in record order. */
  datatype VoxelCells = VoxelCells(cell: seq<int>, volFrac: seq<real>)

  /** A voxel's composition: parallel lists of materials and their volume fractions. */
  datatype Composition = Composition(mat: seq<string>, volFrac: seq<real>)

  predicate WellFormed(c: Composition) {
    |c.mat| == |c.volFrac|
  }

  /** Every record's cell has a material assignment. */
  predicate AllAssigned(rs: seq<Record>, assigns: map<int, string>) {
    forall i :: 0 <= i < |rs| ==> rs[i].cell in assigns
  }

  // ---- grouping by voxel ----

  /** The voxel indices that occur in the records. */
  function VoxelsOf(rs: seq<Record>): (vs: set<nat>)
    ensures forall v :: v in vs <==> exists i :: 0 <= i < |rs| && rs[i].voxel == v
  {
    set i | 0 <= i < |rs| :: rs[i].voxel
  }

  /** The cells of the records of voxel v, in record order. */
  function CellsOf(rs: seq<Record>, v: nat): seq<int> {
    if |rs| == 0 then []
    else CellsOf(rs[..|rs| - 1], v) + (if rs[|rs| - 1].voxel == v then [rs[|rs| - 1].cell] else [])
  }

  /** The volume fractions of the records of voxel v, in record order. */
  function FracsOf(rs: seq<Record>, v: nat): (fs: seq<real>)
    ensures |fs| == |CellsOf(rs, v)|
  {
    if |rs| == 0 then []
    else FracsOf(rs[..|rs| - 1], v) + (if rs[|rs| - 1].voxel == v then [rs[|rs| - 1].volFrac] else [])
  }

  /** A record's cell is listed among its voxel's cells. */
  lemma {:induction false} CellOfRecord(rs: seq<Record>, v: nat, i: nat)
    requires i < |rs| && rs[i].voxel == v
    ensures rs[i].cell in CellsOf(rs, v)
  {
    var n := |rs| - 1;
    if i < n {
      CellOfRecord(rs[..n], v, i);
    }
  }

  /** Every cell listed for a voxel, with its fraction, comes from one of that voxel's records. */
  lemma {:induction false} RecordOfCell(rs: seq<Record>, v: nat, j: nat)
    requires j < |CellsOf(rs, v)|
    ensures exists i :: 0 <= i < |rs| && rs[i].voxel == v && rs[i].cell == CellsOf(rs, v)[j]
                        && rs[i].volFrac == FracsOf(rs, v)[j]
  {
    var n := |rs| - 1;
    if j < |CellsOf(rs[..n], v)| {
      RecordOfCell(rs[..n], v, j);
      var i :| 0 <= i < n && rs[..n][i].voxel == v && rs[..n][i].cell == CellsOf(rs[..n], v)[j]
               && rs[..n][i].volFrac == FracsOf(rs[..n], v)[j];
      assert rs[i] == rs[..n][i];
    } else {
      assert rs[n].voxel == v && rs[n].cell == CellsOf(rs, v)[j] && rs[n].volFrac == FracsOf(rs, v)[j];
    }
  }

  /** A voxel no record names has no cells. */
  lemma {:induction false} NoCellsOutside(rs: seq<Record>, v: nat)
    requires v !in VoxelsOf(rs)
    ensures CellsOf(rs, v) == []
  {
    if |rs| > 0 {
      var n := |rs| - 1;
      assert VoxelsOf(rs[..n]) <= VoxelsOf(rs) by {
        forall w | w in VoxelsOf(rs[..n]) ensures w in VoxelsOf(rs) {
          var i :| 0 <= i < n && rs[..n][i].voxel == w;
          assert rs[i].voxel == w;
        }
      }
      NoCellsOutside(rs[..n], v);
    }
  }

  /** Regroups the records into a map from voxel index to its cells and fractions,
      appending each record's cell and fraction to its voxel's lists. */
  method GroupByVoxel(rs: seq<Record>) returns (voxel: map<nat, VoxelCells>)
    ensures voxel.Keys == VoxelsOf(rs)
    ensures forall v :: v in voxel ==> voxel[v] == VoxelCells(CellsOf(rs, v), FracsOf(rs, v))
  {
    voxel := map[];
    for i := 0 to |rs|
      invariant voxel.Keys == VoxelsOf(rs[..i])
      invariant forall v :: v in voxel ==> voxel[v] == VoxelCells(CellsOf(rs[..i], v), FracsOf(rs[..i], v))
    {
      var idx := rs[i].voxel;
      assert rs[..i + 1][..i] == rs[..i];
      if idx !in voxel {
        voxel := voxel[idx := VoxelCells([], [])];
        NoCellsOutside(rs[..i], idx);
      }
      voxel := voxel[idx := VoxelCells(voxel[idx].cell + [rs[i].cell], voxel[idx].volFrac + [rs[i].volFrac])];
      assert VoxelsOf(rs[..i + 1]) == VoxelsOf(rs[..i]) + {idx} by {
        assert rs[..i + 1][i] == rs[i];
      }
    }
    assert rs[..|rs|] == rs;
  }

  // ---- merging repeated materials ----

  /** The first position of m in s. */
  function IndexOf(s: seq<string>, m: string): (k: nat)
    requires m in s
    ensures k < |s| && s[k] == m && m !in s[..k]
  {
    if s[0] == m then 0 else 1 + IndexOf(s[1..], m)
  }

  /** Adds one (material, fraction) entry to a running composition. */
  function Insert(c: Composition, m: string, f: real): Composition
    requires WellFormed(c)
  {
    if m in c.mat then
      var j := IndexOf(c.mat, m);
      Composition(c.mat, c.volFrac[j := c.volFrac[j] + f])
    else
      Composition(c.mat + [m], c.volFrac + [f])
  }

  /** The composition obtained by inserting the entries one after another. */
  function Merged(ms: seq<string>, fs: seq<real>): (c: Composition)
    requires |ms| == |fs|
    ensures WellFormed(c)
  {
    if |ms| == 0 then Composition([], [])
    else Insert(Merged(ms[..|ms| - 1], fs[..|fs| - 1]), ms[|ms| - 1], fs[|fs| - 1])
  }

  /** The sum of the fractions recorded for m. */
  function SumFor(ms: seq<string>, fs: seq<real>, m: string): real
    requires |ms| == |fs|
  {
    if |ms| == 0 then 0.0
    else SumFor(ms[..|ms| - 1], fs[..|fs| - 1], m) + (if ms[|ms| - 1] == m then fs[|fs| - 1] else 0.0)
  }

  lemma IndexOfPrefix(s: seq<string>, t: seq<string>, m: string)
    requires m in s
    ensures IndexOf(s + t, m) == IndexOf(s, m)
  {
    var k := IndexOf(s, m);
    assert (s + t)[k] == m;
    assert (s + t)[..k] == s[..k];
    IndexOfUnique(s + t, m, k);
  }

  lemma IndexOfUnique(s: seq<string>, m: string, k: nat)
    requires k < |s| && s[k] == m && m !in s[..k]
    ensures IndexOf(s, m) == k
  {
  }

  /** Each material of c carries the sum of the fractions recorded for it in (ms, fs). */
  ghost predicate SumsAgree(c: Composition, ms: seq<string>, fs: seq<real>)
    requires WellFormed(c) && |ms| == |fs|
  {
    forall k :: 0 <= k < |c.mat| ==> c.volFrac[k] == SumFor(ms, fs, c.mat[k])
  }

  /** The materials of mats occur in ms and are listed in order of their first appearance there. */
  ghost predicate FirstSeenOrder(mats: seq<string>, ms: seq<string>) {
    && (forall i :: 0 <= i < |mats| ==> mats[i] in ms)
    && (forall i, j :: 0 <= i < j < |mats| ==> IndexOf(ms, mats[i]) < IndexOf(ms, mats[j]))
  }

  /** Merging keeps each material of the input exactly once. */
  lemma {:induction false} MergedDistinct(ms: seq<string>, fs: seq<real>)
    requires |ms| == |fs|
    ensures NoDuplicates(Merged(ms, fs).mat)
    ensures forall m :: m in Merged(ms, fs).mat <==> m in ms
  {
    if |ms| > 0 {
      var n := |ms| - 1;
      MergedDistinct(ms[..n], fs[..n]);
      assert ms == ms[..n] + [ms[n]];
    }
  }

  /** A material already seen keeps its first position when one more is recorded. */
  lemma PrefixIndexOf(mats: seq<string>, ms: seq<string>, m: string)
    requires forall i :: 0 <= i < |mats| ==> mats[i] in ms
    ensures forall i :: 0 <= i < |mats| ==> IndexOf(ms + [m], mats[i]) == IndexOf(ms, mats[i])
  {
    forall i | 0 <= i < |mats|
      ensures IndexOf(ms + [m], mats[i]) == IndexOf(ms, mats[i])
    {
      IndexOfPrefix(ms, [m], mats[i]);
    }
  }

  /** Recording a material seen before keeps the order. */
  lemma OrderSeen(mats: seq<string>, ms: seq<string>, m: string)
    requires FirstSeenOrder(mats, ms)
    ensures FirstSeenOrder(mats, ms + [m])
  {
    PrefixIndexOf(mats, ms, m);
  }

  /** Recording a new material and appending it keeps the order. */
  lemma OrderNew(mats: seq<string>, ms: seq<string>, m: string)
    requires FirstSeenOrder(mats, ms) && m !in ms
    ensures FirstSeenOrder(mats + [m], ms + [m])
  {
    PrefixIndexOf(mats, ms, m);
    assert (ms + [m])[..|ms|] == ms;
    IndexOfUnique(ms + [m], m, |ms|);
    var mats' := mats + [m];
    forall i | 0 <= i < |mats'|
      ensures mats'[i] in ms + [m]
    {
      if i < |mats| {
        assert mats'[i] == mats[i];
      }
    }
    forall i, j | 0 <= i < j < |mats'|
      ensures IndexOf(ms + [m], mats'[i]) < IndexOf(ms + [m], mats'[j])
    {
      assert mats'[i] == mats[i];
      if j < |mats| {
        assert mats'[j] == mats[j];
      }
    }
  }

  /** Merging lists the materials in order of their first appearance. */
  lemma {:induction false} MergedOrder(ms: seq<string>, fs: seq<real>)
    requires |ms| == |fs|
    ensures FirstSeenOrder(Merged(ms, fs).mat, ms)
  {
    if |ms| > 0 {
      var n := |ms| - 1;
      var ms', fs' := ms[..n], fs[..n];
      var m := ms[n];
      MergedOrder(ms', fs');
      MergedDistinct(ms', fs');
      var c' := Merged(ms', fs');
      assert ms == ms' + [m];
      if m in c'.mat {
        assert Merged(ms, fs).mat == c'.mat;
        OrderSeen(c'.mat, ms', m);
      } else {
        assert Merged(ms, fs).mat == c'.mat + [m];
        OrderNew(c'.mat, ms', m);
      }
    }
  }

  /** Merging gives each material the sum of the fractions recorded for it. */
  lemma {:induction false} MergedSums(ms: seq<string>, fs: seq<real>)
    requires |ms| == |fs|
    ensures SumsAgree(Merged(ms, fs), ms, fs)
  {
    if |ms| > 0 {
      var n := |ms| - 1;
      var ms', fs' := ms[..n], fs[..n];
      var m, f := ms[n], fs[n];
      MergedSums(ms', fs');
      MergedDistinct(ms', fs');
      var c' := Merged(ms', fs');
      var c := Merged(ms, fs);
      assert ms == ms' + [m] && fs == fs' + [f];
      forall k | 0 <= k < |c.mat|
        ensures c.volFrac[k] == SumFor(ms, fs, c.mat[k])
      {
        var x := c.mat[k];
        assert SumFor(ms, fs, x) == SumFor(ms', fs', x) + (if m == x then f else 0.0);
        if m in c'.mat {
          var j := IndexOf(c'.mat, m);
          assert c.mat == c'.mat;
          if k == j {
            assert c.volFrac[k] == c'.volFrac[k] + f;
          } else {
            assert c'.mat[k] != m;
            assert c.volFrac[k] == c'.volFrac[k];
          }
        } else if k < |c'.mat| {
          assert c.mat[k] == c'.mat[k] && c.volFrac[k] == c'.volFrac[k];
          assert c'.mat[k] in c'.mat;
          assert x != m;
          assert c'.volFrac[k] == SumFor(ms', fs', c'.mat[k]);
        } else {
          assert x == m && c.volFrac[k] == f;
          MergedNoneFor(ms', fs', m);
        }
      }
    }
  }

  /** A material that does not occur has a sum of zero. */
  lemma {:induction false} MergedNoneFor(ms: seq<string>, fs: seq<real>, m: string)
    requires |ms| == |fs| && m !in ms
    ensures SumFor(ms, fs, m) == 0.0
  {
    if |ms| > 0 {
      var n := |ms| - 1;
      assert ms[..n] + [ms[n]] == ms;
      MergedNoneFor(ms[..n], fs[..n], m);
    }
  }

  /** Merging keeps each material once, in order of first appearance, with the
      sum of its fractions. */
  lemma MergedMeaning(ms: seq<string>, fs: seq<real>)
    requires |ms| == |fs|
    ensures NoDuplicates(Merged(ms, fs).mat)
    ensures forall m :: m in Merged(ms, fs).mat <==> m in ms
    ensures FirstSeenOrder(Merged(ms, fs).mat, ms)
    ensures SumsAgree(Merged(ms, fs), ms, fs)
  {
    MergedDistinct(ms, fs);
    MergedOrder(ms, fs);
    MergedSums(ms, fs);
  }

  /** Every one of the cells has a material assignment. */
  predicate Assigned(cells: seq<int>, assigns: map<int, string>) {
    forall i :: 0 <= i < |cells| ==> cells[i] in assigns
  }

  /** The materials of a voxel's cells, looked up one by one. */
  function Materials(cells: seq<int>, assigns: map<int, string>): (ms: seq<string>)
    requires Assigned(cells, assigns)
    ensures |ms| == |cells| && forall i :: 0 <= i < |cells| ==> ms[i] == assigns[cells[i]]
  {
    seq(|cells|, i requires 0 <= i < |cells| => assigns[cells[i]])
  }

  /** The inner scan of the merge: adds f to the fraction of every entry whose
      material is m (there is exactly one, at the first position of m). */
  method AddFraction(mats: seq<string>, fracs: seq<real>, m: string, f: real) returns (fracs': seq<real>)
    requires |mats| == |fracs| && m in mats && NoDuplicates(mats)
    ensures fracs' == fracs[IndexOf(mats, m) := fracs[IndexOf(mats, m)] + f]
  {
    ghost var k := IndexOf(mats, m);
    fracs' := fracs;
    for j := 0 to |mats|
      invariant |fracs'| == |mats|
      invariant forall t :: 0 <= t < |mats| && t != k ==> fracs'[t] == fracs[t]
      invariant fracs'[k] == if j <= k then fracs[k] else fracs[k] + f
    {
      if m == mats[j] {
        fracs' := fracs'[j := fracs'[j] + f];
      }
    }
  }

  /** Adds one material entry: appended when new, added onto the existing entry otherwise. */
  method InsertEntry(mats: seq<string>, fracs: seq<real>, m: string, f: real)
    returns (mats': seq<string>, fracs': seq<real>)
    requires |mats| == |fracs| && NoDuplicates(mats)
    ensures Composition(mats', fracs') == Insert(Composition(mats, fracs), m, f)
  {
    if m !in mats {
      mats', fracs' := mats + [m], fracs + [f];
    } else {
      mats' := mats;
      fracs' := AddFraction(mats, fracs, m, f);
    }
  }

  /** One step of the merge: the entry for the next cell's material and fraction. */
  method MergeCell(mats: seq<string>, fracs: seq<real>, ghost ms: seq<string>, fs: seq<real>, i: nat, m: string)
    returns (mats': seq<string>, fracs': seq<real>)
    requires i == |ms| < |fs| && Composition(mats, fracs) == Merged(ms, fs[..i])
    ensures Composition(mats', fracs') == Merged(ms + [m], fs[..i + 1])
  {
    MergedDistinct(ms, fs[..i]);
    MergedStep(ms, fs, m);
    mats', fracs' := InsertEntry(mats, fracs, m, fs[i]);
  }

  /** Replaces each cell by its material and merges repeated materials: a new material
      is appended with its fraction; a repeated one has the fraction added to the
      entry that holds it. A cell without a material assignment is a lookup error. */
  method MergeVoxel(vc: VoxelCells, assigns: map<int, string>) returns (r: Result<Composition>)
    requires |vc.cell| == |vc.volFrac|
    ensures r.Ok? <==> Assigned(vc.cell, assigns)
    ensures r.Err? ==> r.error.MissingCell? && r.error.cell in vc.cell && r.error.cell !in assigns
    ensures r.Ok? ==> r.value == Merged(Materials(vc.cell, assigns), vc.volFrac)
  {
    var mats: seq<string> := [];
    var fracs: seq<real> := [];
    ghost var ms: seq<string> := [];
    for i := 0 to |vc.cell|
      invariant |ms| == i && forall t :: 0 <= t < i ==> vc.cell[t] in assigns && ms[t] == assigns[vc.cell[t]]
      invariant Composition(mats, fracs) == Merged(ms, vc.volFrac[..i])
    {
      var cell := vc.cell[i];
      if cell !in assigns {
        return Err(MissingCell(cell));
      }
      var m := assigns[cell];
      mats, fracs := MergeCell(mats, fracs, ms, vc.volFrac, i, m);
      ms := ms + [m];
    }
    assert ms == Materials(vc.cell, assigns);
    assert vc.volFrac[..|vc.volFrac|] == vc.volFrac;
    r := Ok(Composition(mats, fracs));
  }

  /** Merging one more entry is inserting it into the merge of the earlier ones. */
  lemma MergedStep(ms: seq<string>, fs: seq<real>, m: string)
    requires |ms| < |fs|
    ensures Merged(ms + [m], fs[..|ms| + 1]) == Insert(Merged(ms, fs[..|ms|]), m, fs[|ms|])
  {
    var fs' := fs[..|ms| + 1];
    assert (ms + [m])[..|ms|] == ms;
    assert fs'[..|ms|] == fs[..|ms|];
  }

  // ---- the whole aggregation ----

  /** The composition of voxel v: its cells' materials with repeated materials merged. */
  function VoxelComposition(rs: seq<Record>, assigns: map<int, string>, v: nat): Composition
    requires Assigned(CellsOf(rs, v), assigns)
  {
    Merged(Materials(CellsOf(rs, v), assigns), FracsOf(rs, v))
  }

  /** If every voxel's cells are assigned, so is every record's cell. */
  lemma AllRecordsAssigned(rs: seq<Record>, assigns: map<int, string>)
    requires forall v :: v in VoxelsOf(rs) ==> Assigned(CellsOf(rs, v), assigns)
    ensures AllAssigned(rs, assigns)
  {
    forall i | 0 <= i < |rs|
      ensures rs[i].cell in assigns
    {
      var v := rs[i].voxel;
      CellOfRecord(rs, v, i);
      var j :| 0 <= j < |CellsOf(rs, v)| && CellsOf(rs, v)[j] == rs[i].cell;
    }
  }

  /** A voxel with an unassigned cell has a record with that cell. */
  lemma UnassignedRecord(rs: seq<Record>, assigns: map<int, string>, v: nat, c: int)
    requires c in CellsOf(rs, v) && c !in assigns
    ensures exists i :: 0 <= i < |rs| && rs[i].cell == c && rs[i].cell !in assigns
  {
    var j :| 0 <= j < |CellsOf(rs, v)| && CellsOf(rs, v)[j] == c;
    RecordOfCell(rs, v, j);
  }

  /** Groups the records by voxel, then replaces cells by materials and merges
      repeated materials voxel by voxel, in increasing voxel order. */
  method Aggregate(rs: seq<Record>, assigns: map<int, string>) returns (r: Result<map<nat, Composition>>)
    ensures r.Ok? <==> AllAssigned(rs, assigns)
    ensures r.Err? ==> r.error.MissingCell? && r.error.cell !in assigns
                       && exists i :: 0 <= i < |rs| && rs[i].cell == r.error.cell
    ensures r.Ok? ==> r.value.Keys == VoxelsOf(rs)
    ensures r.Ok? ==> forall v :: v in r.value ==>
              Assigned(CellsOf(rs, v), assigns) && r.value[v] == VoxelComposition(rs, assigns, v)
  {
    var voxel := GroupByVoxel(rs);
    var zones: map<nat, Composition> := map[];
    var todo := voxel.Keys;
    while todo != {}
      invariant todo <= voxel.Keys && zones.Keys == voxel.Keys - todo
      invariant forall v :: v in zones ==>
                  Assigned(CellsOf(rs, v), assigns) && zones[v] == VoxelComposition(rs, assigns, v)
      decreases todo
    {
      var v := Least(todo);
      var c := MergeVoxel(voxel[v], assigns);
      if c.Err? {
        UnassignedRecord(rs, assigns, v, c.error.cell);
        return Err(c.error);
      }
      zones := zones[v := c.value];
      todo := todo - {v};
    }
    assert zones.Keys == voxel.Keys;
    AllRecordsAssigned(rs, assigns);
    r := Ok(zones);
  }
}
