/** Values shared by every stage of the zone-map construction. */
module Common {

  /** The ways the zone-map construction can fail. */
  datatype Error =
    | NoActiveAxis              // no axis has more than two divisions: IGEOM is never assigned
    | MissingCell(cell: int)    // a discretization cell has no entry in the material assignments
    | MissingVoxel(index: nat)  // the grid needs a voxel index the voxel-zone map does not hold
    | NegativeDimension         // a grid dimension computed from the bounds is negative

  datatype Result<T> = Ok(value: T) | Err(error: Error)

  datatype Option<T> = None | Some(value: T)

  /** No element occurs twice. */
  predicate NoDuplicates<T(==)>(s: seq<T>) {
    forall i, j :: 0 <= i < j < |s| ==> s[i] != s[j]
  }

  /** Every finite non-empty set of naturals has a least element. */
  lemma LeastExists(s: set<nat>)
    requires s != {}
    ensures exists k :: IsLeast(k, s)
    decreases |s|
  {
    var x :| x in s;
    if s == {x} {
      assert IsLeast(x, s);
    } else {
      var rest := s - {x};
      LeastExists(rest);
      var k' :| IsLeast(k', rest);
      var k := if x < k' then x else k';
      forall j | j in s
        ensures k <= j
      {
        if j != x {
          assert j in rest;
        }
      }
      assert IsLeast(k, s);
    }
  }

  predicate IsLeast(k: nat, s: set<nat>) {
    k in s && forall j :: j in s ==> k <= j
  }

  /** The least element of a finite non-empty set of naturals. */
  function Least(s: set<nat>): (k: nat)
    requires s != {}
    ensures k in s && forall j :: j in s ==> k <= j
  {
    LeastExists(s);
    var k :| IsLeast(k, s);
    k
  }

  /** The elements of s in increasing order. A Python 2 dictionary whose integer keys
      are exactly 0..n-1 or 1..z yields them in this order; keys with gaps need not
      come out in increasing order. */
  function Ascending(s: set<nat>): (r: seq<nat>)
    ensures |r| == |s|
    decreases |s|
  {
    if s == {} then []
    else
      var k := Least(s);
      [k] + Ascending(s - {k})
  }

  /** Every key is visited, and nothing else. */
  lemma {:induction false} AscendingMembers(s: set<nat>)
    ensures forall k :: k in Ascending(s) <==> k in s
    decreases |s|
  {
    if s != {} {
      var k := Least(s);
      AscendingMembers(s - {k});
      assert Ascending(s) == [k] + Ascending(s - {k});
    }
  }

  /** The order is strictly increasing, so no key is visited twice. */
  lemma {:induction false} AscendingIncreasing(s: set<nat>)
    ensures forall i, j :: 0 <= i < j < |Ascending(s)| ==> Ascending(s)[i] < Ascending(s)[j]
    decreases |s|
  {
    if s != {} {
      var k := Least(s);
      AscendingIncreasing(s - {k});
      AscendingMembers(s - {k});
      var r := Ascending(s);
      assert r == [k] + Ascending(s - {k});
      forall i, j | 0 <= i < j < |r|
        ensures r[i] < r[j]
      {
        if i == 0 {
          assert r[j] in Ascending(s - {k});
        }
      }
    }
  }
}
