/** N-dimensional numpy arrays as finite maps from index tuples to values. */
module Grids {
  import opened Complex

  type Index = seq<int>
  type Shape = seq<nat>
  type Grid = map<Index, Complex>

  /** Every extent is at least one (fields are never empty). */
  predicate PositiveShape(shape: Shape) {
    forall k :: 0 <= k < |shape| ==> shape[k] >= 1
  }

  predicate InBounds(shape: Shape, idx: Index) {
    |idx| == |shape| && forall k :: 0 <= k < |idx| ==> 0 <= idx[k] < shape[k]
  }

  /** The grid holds exactly one entry per in-bounds index of `shape`. */
  ghost predicate WellFormed<T>(shape: Shape, g: map<Index, T>) {
    forall idx :: idx in g <==> InBounds(shape, idx)
  }

  /** Number of elements, numpy's `size`. */
  function Size(shape: Shape): nat {
    if |shape| == 0 then 1 else Size(shape[..|shape| - 1]) * shape[|shape| - 1]
  }

  /** A shape with no zero extent has at least one element. */
  lemma SizePositive(shape: Shape)
    requires PositiveShape(shape)
    ensures Size(shape) >= 1
    decreases |shape|
  {
    if |shape| > 0 {
      assert PositiveShape(shape[..|shape| - 1]) by {
        assert forall k :: 0 <= k < |shape| - 1 ==> shape[..|shape| - 1][k] == shape[k];
      }
      SizePositive(shape[..|shape| - 1]);
    }
  }

  /** Two grids over one shape that agree at every index are equal. */
  lemma MapsEqual(shape: Shape, r: Grid, a: Grid)
    requires WellFormed(shape, r) && WellFormed(shape, a)
    requires forall idx :: idx in a ==> r[idx] == a[idx]
    ensures r == a
  {
    assert r.Keys == a.Keys;
  }

  /** All in-bounds indices of a shape. */
  function Indices(shape: Shape): (r: set<Index>)
    ensures forall idx :: idx in r <==> InBounds(shape, idx)
  {
    if |shape| == 0 then {[]}
    else
      var rest := Indices(shape[1..]);
      var r := set c, tail | 0 <= c < shape[0] && tail in rest :: [c] + tail;
      assert forall idx | InBounds(shape, idx) :: idx in r by {
        forall idx | InBounds(shape, idx) ensures idx in r {
          assert InBounds(shape[1..], idx[1..]);
          assert idx == [idx[0]] + idx[1..];
        }
      }
      r
  }

  /** `numpy.zeros(shape)` and friends. */
  function Filled<T>(shape: Shape, v: T): (g: map<Index, T>)
    ensures WellFormed(shape, g)
    ensures forall idx :: idx in g ==> g[idx] == v
  {
    map idx | idx in Indices(shape) :: v
  }

  /** Index of the mirror mode along one axis, `(n - c) mod n`. */
  function MirrorCoord(n: nat, c: int): int {
    if c == 0 then 0 else n - c
  }

  /** Coordinatewise mirror `idx -> -idx` on the periodic grid. */
  function Mirror(shape: Shape, idx: Index): (m: Index)
    requires |idx| == |shape|
    ensures |m| == |idx|
    ensures forall k :: 0 <= k < |m| ==> m[k] == MirrorCoord(shape[k], idx[k])
  {
    seq(|idx|, k requires 0 <= k < |idx| => MirrorCoord(shape[k], idx[k]))
  }

  lemma MirrorCoordRange(n: nat, c: int)
    requires 0 <= c < n
    ensures 0 <= MirrorCoord(n, c) < n
    ensures MirrorCoord(n, MirrorCoord(n, c)) == c
    ensures MirrorCoord(n, c) == (n - c) % n
  {
  }

  lemma MirrorInBounds(shape: Shape, idx: Index)
    requires InBounds(shape, idx)
    ensures InBounds(shape, Mirror(shape, idx))
    ensures Mirror(shape, Mirror(shape, idx)) == idx
  {
    forall k | 0 <= k < |idx| ensures 0 <= Mirror(shape, idx)[k] < shape[k] {
      MirrorCoordRange(shape[k], idx[k]);
    }
    forall k | 0 <= k < |idx| ensures Mirror(shape, Mirror(shape, idx))[k] == idx[k] {
      MirrorCoordRange(shape[k], idx[k]);
    }
  }

  /** `coeff(-k) == conj(coeff(k))` for every mode. */
  predicate Hermitian(shape: Shape, g: Grid) {
    forall idx :: idx in g && |idx| == |shape| ==>
      Mirror(shape, idx) in g && g[Mirror(shape, idx)] == Conj(g[idx])
  }

  /** A self-mirrored mode (every coordinate 0 or, for an even extent, n/2) of a
      Hermitian grid is real: these are the modes the enforcer must make real. */
  lemma HermitianSelfMirrorReal(shape: Shape, g: Grid, idx: Index)
    requires WellFormed(shape, g) && Hermitian(shape, g)
    requires InBounds(shape, idx) && Mirror(shape, idx) == idx
    ensures IsReal(g[idx])
  {
    assert g[idx] == Conj(g[idx]);
  }
}
