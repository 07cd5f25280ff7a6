/** The PARTISN ZONES array: an im by jm*km grid filled row by row from the
    voxel-zone map, voxels numbered from 0 in row-major order. */
module Layout {
  import opened Common
  import opened CoordSys

  /** The number of intervals along an axis: one less than its bounds, or 1 for an
      axis without bounds. */
  function Extent(bounds: map<Axis, seq<real>>, a: Axis): (e: int)
    ensures a in bounds ==> e == |bounds[a]| - 1
    ensures a !in bounds ==> e == 1
  {
    if a in bounds then |bounds[a]| - 1 else 1
  }

  /** The number of grid columns, jm * km. */
  function Columns(bounds: map<Axis, seq<real>>): int {
    Extent(bounds, Y) * Extent(bounds, Z)
  }

  /** The grid dimensions the bounds give, or the error numpy raises for a negative one. */
  function Shape(bounds: map<Axis, seq<real>>): (r: Result<(nat, nat)>)
    ensures r.Err? <==> Extent(bounds, X) < 0 || Columns(bounds) < 0
    ensures r.Err? ==> r.error == NegativeDimension
    ensures r.Ok? ==> r.value == (Extent(bounds, X), Columns(bounds))
  {
    var im := Extent(bounds, X);
    var cols := Extent(bounds, Y) * Extent(bounds, Z);
    if im < 0 || cols < 0 then Err(NegativeDimension) else Ok((im, cols))
  }

  /** The number of the first voxel of row i: rows before it hold cols voxels each. */
  function RowStart(i: nat, cols: nat): nat {
    if i == 0 then 0 else RowStart(i - 1, cols) + cols
  }

  lemma {:induction false} RowStartProduct(i: nat, cols: nat)
    ensures RowStart(i, cols) == i * cols
  {
    if i > 0 {
      RowStartProduct(i - 1, cols);
    }
  }

  /** Every position of an im by cols grid is numbered below RowStart(im, cols). */
  lemma {:induction false} RowStartBound(i: nat, jk: nat, im: nat, cols: nat)
    requires i < im && jk < cols
    ensures RowStart(i, cols) + jk < RowStart(im, cols)
  {
    if im > i + 1 {
      RowStartBound(i, jk, im - 1, cols);
    }
  }

  lemma {:induction false} RowStartMonotone(i: nat, i': nat, cols: nat)
    requires i <= i'
    ensures RowStart(i, cols) <= RowStart(i', cols)
    decreases i'
  {
    if i < i' {
      RowStartMonotone(i, i' - 1, cols);
    }
  }

  /** Every voxel number below RowStart(im, cols) is read back at one position of the
      grid: row n / cols, column n % cols. */
  lemma RowStartDivMod(n: nat, im: nat, cols: nat)
    requires n < RowStart(im, cols)
    ensures cols > 0 && n / cols < im && n % cols < cols
    ensures RowStart(n / cols, cols) + n % cols == n
  {
    RowStartProduct(im, cols);
    assert cols > 0;
    var q := n / cols;
    RowStartProduct(q, cols);
    assert q * cols + n % cols == n;
    if q >= im {
      RowStartMonotone(im, q, cols);
    }
  }

  /** With bounds as the coordinate system gives them, an axis has as many intervals as
      its divisions less one when it is active, and exactly one otherwise. */
  lemma AxisExtent(mesh: Mesh, bounds: map<Axis, seq<real>>, a: Axis)
    requires BoundsOf(mesh, bounds)
    ensures Extent(bounds, a) == if Active(mesh, a) then |mesh.Divisions(a)| - 1 else 1
    ensures Extent(bounds, a) >= 1
    ensures Active(mesh, a) ==> Extent(bounds, a) >= 2
  {
  }

  /** A product of two positive extents is positive. */
  lemma PositiveProduct(p: int, q: int)
    requires p >= 1 && q >= 1
    ensures p * q >= 1
  {
    assert p * q == (p - 1) * q + q;
    assert (p - 1) * q >= 0;
  }

  /** With bounds as the coordinate system gives them, the shape is never an error and
      the grid holds one position per voxel of the mesh. */
  lemma MeshShape(mesh: Mesh, bounds: map<Axis, seq<real>>)
    requires BoundsOf(mesh, bounds)
    ensures Shape(bounds).Ok?
    ensures Shape(bounds).value.0 >= 1 && Shape(bounds).value.1 >= 1
    ensures RowStart(Shape(bounds).value.0, Shape(bounds).value.1)
              == Extent(bounds, X) * (Extent(bounds, Y) * Extent(bounds, Z))
  {
    AxisExtent(mesh, bounds, X);
    AxisExtent(mesh, bounds, Y);
    AxisExtent(mesh, bounds, Z);
    PositiveProduct(Extent(bounds, Y), Extent(bounds, Z));
    RowStartProduct(Shape(bounds).value.0, Shape(bounds).value.1);
  }

  /** What filling an im by cols grid from the voxel-zone map yields: the error for the
      first voxel index of the grid the map does not hold, if any, and otherwise the
      grid whose row i, column jk holds the zone of voxel RowStart(i, cols) + jk,
      that is i * cols + jk. */
  ghost predicate GridOf(r: Result<array2<nat>>, im: nat, cols: nat, voxelZone: map<nat, nat>)
    reads if r.Ok? then {r.value} else {}
  {
    && (r.Err? ==>
          && r.error.MissingVoxel? && r.error.index < RowStart(im, cols)
          && r.error.index !in voxelZone
          && forall m :: 0 <= m < r.error.index ==> m in voxelZone)
    && ((forall n :: 0 <= n < RowStart(im, cols) ==> n in voxelZone) ==> r.Ok?)
    && (r.Ok? ==> Filled(r.value, im, cols, voxelZone))
  }

  /** The zone the voxel-zone map gives voxel n; only read where n is in the map. */
  function ZoneOf(voxelZone: map<nat, nat>, n: nat): nat {
    if n in voxelZone then voxelZone[n] else 0
  }

  /** An im by cols grid, every voxel index of which the map holds, whose row i,
      column jk holds the zone of voxel RowStart(i, cols) + jk, that is i * cols + jk. */
  ghost predicate Filled(grid: array2<nat>, im: nat, cols: nat, voxelZone: map<nat, nat>)
    reads grid
  {
    && grid.Length0 == im && grid.Length1 == cols
    && (forall n :: 0 <= n < RowStart(im, cols) ==> n in voxelZone)
    && forall i, jk :: 0 <= i < im && 0 <= jk < cols ==> grid[i, jk] == ZoneOf(voxelZone, RowStart(i, cols) + jk)
  }

  /** Allocates the ZONES grid from the bounds and fills it. */
  method FillZones(bounds: map<Axis, seq<real>>, voxelZone: map<nat, nat>) returns (r: Result<array2<nat>>)
    ensures Shape(bounds).Err? ==> r == Err(Shape(bounds).error)
    ensures Shape(bounds).Ok? ==> GridOf(r, Shape(bounds).value.0, Shape(bounds).value.1, voxelZone)
    ensures r.Ok? ==> fresh(r.value)
  {
    var shape := Shape(bounds);
    if shape.Err? {
      return Err(shape.error);
    }
    r := FillGrid(shape.value.0, shape.value.1, voxelZone);
  }

  /** Fills the ZONES grid row by row, voxel n going to the next position and n
      counting up from 0, and stops at the first index the map does not hold. */
  method FillGrid(im: nat, cols: nat, voxelZone: map<nat, nat>) returns (r: Result<array2<nat>>)
    ensures GridOf(r, im, cols, voxelZone)
    ensures r.Ok? ==> fresh(r.value)
  {
    var grid := new nat[im, cols];
    var n: nat := 0;
    for i := 0 to im
      invariant n == RowStart(i, cols)
      invariant forall m :: 0 <= m < n ==> m in voxelZone
      invariant forall i', jk :: 0 <= i' < i && 0 <= jk < cols ==> grid[i', jk] == ZoneOf(voxelZone, RowStart(i', cols) + jk)
    {
      var missing;
      missing, n := FillRow(grid, voxelZone, i, n);
      if missing.Some? {
        RowStartBound(i, missing.value - RowStart(i, cols), im, cols);
        MissingGrid(missing.value, im, cols, voxelZone);
        return Err(MissingVoxel(missing.value));
      }
    }
    assert Filled(grid, im, cols, voxelZone);
    r := Ok(grid);
  }

  lemma MissingGrid(n: nat, im: nat, cols: nat, voxelZone: map<nat, nat>)
    requires n < RowStart(im, cols) && n !in voxelZone && forall m :: 0 <= m < n ==> m in voxelZone
    ensures GridOf(Err(MissingVoxel(n)), im, cols, voxelZone)
  {
  }

  /** Fills row i of the grid from voxels n0, n0 + 1, ... in column order, stopping at
      the first index the voxel-zone map does not hold. */
  method FillRow(grid: array2<nat>, voxelZone: map<nat, nat>, i: nat, n0: nat) returns (missing: Option<nat>, n: nat)
    requires i < grid.Length0
    requires forall m :: 0 <= m < n0 ==> m in voxelZone
    modifies grid
    ensures forall i', jk :: 0 <= i' < grid.Length0 && i' != i && 0 <= jk < grid.Length1 ==>
              grid[i', jk] == old(grid[i', jk])
    ensures missing.None? ==> n == n0 + grid.Length1
    ensures missing.None? ==> forall m :: 0 <= m < n ==> m in voxelZone
    ensures missing.None? ==> forall jk :: 0 <= jk < grid.Length1 ==> grid[i, jk] == ZoneOf(voxelZone, n0 + jk)
    ensures missing.Some? ==>
              && n0 <= missing.value < n0 + grid.Length1 && missing.value !in voxelZone
              && forall m :: 0 <= m < missing.value ==> m in voxelZone
  {
    n := n0;
    for jk := 0 to grid.Length1
      invariant n == n0 + jk
      invariant forall m :: 0 <= m < n ==> m in voxelZone
      invariant forall i', jk' :: 0 <= i' < grid.Length0 && i' != i && 0 <= jk' < grid.Length1 ==>
                  grid[i', jk'] == old(grid[i', jk'])
      invariant forall jk' :: 0 <= jk' < jk ==> grid[i, jk'] == ZoneOf(voxelZone, n0 + jk')
    {
      if n !in voxelZone {
        return Some(n), n;
      }
      grid[i, jk] := voxelZone[n];
      n := n + 1;
    }
    return None, n;
  }
}
