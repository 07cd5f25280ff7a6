/** Coordinate-system resolution: which mesh axes are subdivided, their bounds,
    and the PARTISN geometry keyword. */
module CoordSys {
  import opened Common

  datatype Axis = X | Y | Z

  /** The PARTISN IGEOM keyword: 'SLAB', 'X-Y' or 'X-Y-Z'. */
  datatype Geom = Slab | XY | XYZ

  /** The structured mesh, seen only through its division coordinates per axis. */
  datatype Mesh = Mesh(x: seq<real>, y: seq<real>, z: seq<real>) {
    function Divisions(a: Axis): seq<real> {
      match a
      case X => x
      case Y => y
      case Z => z
    }
  }

  datatype CoordSystem = CoordSystem(igeom: Geom, bounds: map<Axis, seq<real>>)

  /** An axis is active when it has at least one interior division. */
  predicate Active(mesh: Mesh, a: Axis) {
    |mesh.Divisions(a)| > 2
  }

  /** The bounds a mesh yields: every active axis, with its full division list. */
  ghost predicate BoundsOf(mesh: Mesh, bounds: map<Axis, seq<real>>) {
    && (forall a: Axis :: a in bounds <==> Active(mesh, a))
    && (forall a :: a in bounds ==> bounds[a] == mesh.Divisions(a))
  }

  /** The number of active axes. */
  function ActiveCount(mesh: Mesh): (n: nat)
    ensures n <= 3
    ensures n == 0 <==> !Active(mesh, X) && !Active(mesh, Y) && !Active(mesh, Z)
  {
    (if Active(mesh, X) then 1 else 0) + (if Active(mesh, Y) then 1 else 0) + (if Active(mesh, Z) then 1 else 0)
  }

  /** The bounds map holds one key per active axis. */
  lemma BoundsSize(mesh: Mesh, bounds: map<Axis, seq<real>>)
    requires BoundsOf(mesh, bounds)
    ensures |bounds| == ActiveCount(mesh)
  {
    var ks := (if Active(mesh, X) then {X} else {}) + (if Active(mesh, Y) then {Y} else {})
              + (if Active(mesh, Z) then {Z} else {});
    assert bounds.Keys == ks;
  }

  /** The place of an axis in the order x, y, z. */
  function Rank(a: Axis): nat {
    match a
    case X => 0
    case Y => 1
    case Z => 2
  }

  /** The coordinate string: the active axes, in x, y, z order. */
  method CoordString(mesh: Mesh) returns (coordSys: seq<Axis>)
    ensures forall a: Axis :: a in coordSys <==> Active(mesh, a)
    ensures |coordSys| == ActiveCount(mesh)
    ensures forall i, j :: 0 <= i < j < |coordSys| ==> coordSys[i] != coordSys[j]
    ensures forall i, j :: 0 <= i < j < |coordSys| ==> Rank(coordSys[i]) < Rank(coordSys[j])
  {
    var nx := |mesh.Divisions(X)|;
    var ny := |mesh.Divisions(Y)|;
    var nz := |mesh.Divisions(Z)|;

    coordSys := [];
    if nx > 2 {
      coordSys := coordSys + [X];
    }
    if ny > 2 {
      coordSys := coordSys + [Y];
    }
    if nz > 2 {
      coordSys := coordSys + [Z];
    }
  }

  /** Reads the divisions of each axis of the coordinate string into the bounds map. */
  method ReadBounds(mesh: Mesh, coordSys: seq<Axis>) returns (bounds: map<Axis, seq<real>>)
    ensures forall a :: a in bounds <==> a in coordSys
    ensures forall a :: a in bounds ==> bounds[a] == mesh.Divisions(a)
  {
    bounds := map[];
    for k := 0 to |coordSys|
      invariant forall a :: a in bounds <==> a in coordSys[..k]
      invariant forall a :: a in bounds ==> bounds[a] == mesh.Divisions(a)
    {
      bounds := bounds[coordSys[k] := mesh.Divisions(coordSys[k])];
    }
    assert coordSys[..|coordSys|] == coordSys;
  }

  /** Builds the coordinate string, reads the bounds of its axes, and picks IGEOM
      from the number of active axes; with none, IGEOM would be unassigned, an error. */
  method GetCoordSys(mesh: Mesh) returns (r: Result<CoordSystem>)
    ensures r.Ok? <==> ActiveCount(mesh) > 0
    ensures r.Err? ==> r.error == NoActiveAxis
    ensures r.Ok? ==> BoundsOf(mesh, r.value.bounds)
    ensures r.Ok? ==> (r.value.igeom == Slab <==> ActiveCount(mesh) == 1)
    ensures r.Ok? ==> (r.value.igeom == XY <==> ActiveCount(mesh) == 2)
    ensures r.Ok? ==> (r.value.igeom == XYZ <==> ActiveCount(mesh) == 3)
  {
    var coordSys := CoordString(mesh);
    var bounds := ReadBounds(mesh, coordSys);

    if |coordSys| == 1 {
      r := Ok(CoordSystem(Slab, bounds));
    } else if |coordSys| == 2 {
      r := Ok(CoordSystem(XY, bounds));
    } else if |coordSys| == 3 {
      r := Ok(CoordSystem(XYZ, bounds));
    } else {
      r := Err(NoActiveAxis);
    }
  }
}
