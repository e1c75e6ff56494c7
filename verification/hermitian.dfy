/** Serial Hermitian-symmetry enforcement (`enforce_hermitian` without a
    communicator) and the standalone `zero_nyquist` of
    dedalus/data_objects/hermitianize.py.

    The source recurses on numpy sub-array VIEWS: `data[..., n/2]` (the Nyquist
    plane of the last axis) and `data[zspace]` (a zero plane), each of which
    drops one axis.  The model keeps the whole array and describes a view by
    fixing axes: an axis is either `Free` (an axis of the sub-array) or
    `Fixed(at)` (an index already chosen).  Writing through a view writes the
    shared storage, exactly as numpy views do. */
module Hermitianize {
  import opened Complex
  import opened Grids
  import opened Results

  datatype Axis = Free | Fixed(at: int)
  type View = seq<Axis>

  predicate ValidView(shape: Shape, view: View) {
    PositiveShape(shape) && |view| == |shape|
  }

  /** The whole array as a view of itself. */
  function WholeArray(ndim: nat): (v: View)
    ensures |v| == ndim && forall k :: 0 <= k < ndim ==> v[k] == Free
  {
    seq(ndim, _ => Free)
  }

  predicate InView(view: View, idx: Index) {
    |idx| == |view| && forall k :: 0 <= k < |view| && view[k].Fixed? ==> idx[k] == view[k].at
  }

  /** Number of axes of the sub-array (`data.ndim` of the view). */
  function LiveCount(view: View): nat {
    if |view| == 0 then 0
    else LiveCount(view[..|view| - 1]) + (if view[|view| - 1].Free? then 1 else 0)
  }

  /** The position of the view's last axis in the full array. */
  function LastLive(view: View): (k: nat)
    requires LiveCount(view) > 0
    ensures k < |view| && view[k].Free?
    ensures forall j :: k < j < |view| ==> view[j].Fixed?
  {
    if view[|view| - 1].Free? then |view| - 1 else LastLive(view[..|view| - 1])
  }

  /** `data.size` of the view: the product of the free extents. */
  function ViewSize(shape: Shape, view: View): (n: nat)
    requires |view| == |shape|
    ensures LiveCount(view) == 0 ==> n == 1
  {
    if |view| == 0 then 1
    else ViewSize(shape[..|shape| - 1], view[..|view| - 1])
         * (if view[|view| - 1].Free? then shape[|shape| - 1] else 1)
  }

  /** Every axis of the view has even extent: the case the enforcer is meant for. */
  predicate LiveEven(shape: Shape, view: View)
    requires |view| == |shape|
  {
    forall k :: 0 <= k < |view| && view[k].Free? ==> shape[k] % 2 == 0
  }

  /** `-idx` within the view: free coordinates are mirrored, fixed ones kept. */
  function ViewMirror(shape: Shape, view: View, idx: Index): (m: Index)
    requires |view| == |shape| == |idx|
    ensures |m| == |idx|
    ensures forall k :: 0 <= k < |m| ==>
      m[k] == (if view[k].Free? then MirrorCoord(shape[k], idx[k]) else idx[k])
  {
    seq(|idx|, k requires 0 <= k < |idx| =>
      if view[k].Free? then MirrorCoord(shape[k], idx[k]) else idx[k])
  }

  /** `g[-idx] == conj(g[idx])` at one index, mirrors taken within the view. */
  predicate SymAt(shape: Shape, view: View, g: Grid, idx: Index)
    requires |view| == |shape| == |idx|
  {
    idx in g && ViewMirror(shape, view, idx) in g
    && g[ViewMirror(shape, view, idx)] == Conj(g[idx])
  }

  // ---------------------------------------------------------------------
  // One level of the recursion
  // ---------------------------------------------------------------------

  /** `data.imag = 0` applied to a view of size one. */
  function RealifyView(view: View, a: Grid): (r: Grid)
    ensures r.Keys == a.Keys
    ensures forall idx :: idx in a && !InView(view, idx) ==> r[idx] == a[idx]
    ensures forall idx :: idx in a && InView(view, idx) ==> r[idx] == RealPart(a[idx])
  {
    map idx | idx in a :: if InView(view, idx) then RealPart(a[idx]) else a[idx]
  }

  /** The two slices of the flip step have equal length (or numpy can
      broadcast): even `n`; `n == 1` (both empty); `n == 5` (one source
      column against two target columns). */
  predicate FlipSupported(n: nat) {
    n % 2 == 0 || n == 1 || n == 5
  }

  /** All free coordinates are at least one: the `nonzero` slices. */
  predicate FreeNonzero(view: View, idx: Index)
    requires |idx| == |view|
  {
    forall k :: 0 <= k < |view| && view[k].Free? ==> idx[k] >= 1
  }

  /** Entries written by `data[..., n/2:][nonzero] = S[nonzero_flip].conj()`:
      every free coordinate at least one and the last one above `n/2`. */
  predicate FlipTarget(shape: Shape, view: View, last: nat, idx: Index)
    requires |view| == |shape| && last < |view|
  {
    InView(view, idx) && FreeNonzero(view, idx) && idx[last] > shape[last] / 2
  }

  /** The entry a flip target is read from.  Position `p` of a `1:` slice is
      index `1 + p`, of a `-1:0:-1` slice index `n - 1 - p`: the mirror.  On
      the last axis the source is the lower half; with `n == 5` it has a
      single column (index 1) that numpy broadcasts over both targets. */
  function FlipSource(shape: Shape, view: View, last: nat, idx: Index): (s: Index)
    requires |view| == |shape| == |idx|
    ensures |s| == |idx|
    ensures forall k :: 0 <= k < |s| ==>
      s[k] == (if view[k].Fixed? then idx[k]
               else if k == last && shape[k] == 5 then 1
               else shape[k] - idx[k])
  {
    seq(|idx|, k requires 0 <= k < |idx| =>
      if view[k].Fixed? then idx[k]
      else if k == last && shape[k] == 5 then 1
      else shape[k] - idx[k])
  }

  lemma FlipSourceInBounds(shape: Shape, view: View, last: nat, idx: Index)
    requires ValidView(shape, view) && last < |view| && view[last].Free?
    requires FlipSupported(shape[last])
    requires InBounds(shape, idx) && FlipTarget(shape, view, last, idx)
    ensures InBounds(shape, FlipSource(shape, view, last, idx))
  {
  }

  function FlipValue(shape: Shape, view: View, last: nat, a: Grid, idx: Index): Complex
    requires ValidView(shape, view) && WellFormed(shape, a)
    requires last < |view| && view[last].Free? && FlipSupported(shape[last])
    requires idx in a
  {
    if FlipTarget(shape, view, last, idx) then
      FlipSourceInBounds(shape, view, last, idx);
      Conj(a[FlipSource(shape, view, last, idx)])
    else a[idx]
  }

  /** The flip step about the k-origin (hermitianize.py:71-74). */
  function Flip(shape: Shape, view: View, a: Grid): (r: Grid)
    requires ValidView(shape, view) && WellFormed(shape, a)
    requires LiveCount(view) > 0 && FlipSupported(shape[LastLive(view)])
    ensures WellFormed(shape, r)
    ensures forall idx :: idx in a && !FlipTarget(shape, view, LastLive(view), idx) ==> r[idx] == a[idx]
  {
    map idx | idx in a :: FlipValue(shape, view, LastLive(view), a, idx)
  }

  // ---------------------------------------------------------------------
  // The recursion
  // ---------------------------------------------------------------------

  lemma LiveCountFix(view: View, k: nat, c: int)
    requires k < |view| && view[k].Free?
    ensures LiveCount(view[k := Fixed(c)]) == LiveCount(view) - 1
    decreases |view|
  {
    var n := |view|;
    if k < n - 1 {
      assert view[k := Fixed(c)][..n - 1] == view[..n - 1][k := Fixed(c)];
      LiveCountFix(view[..n - 1], k, c);
    } else {
      assert view[k := Fixed(c)][..n - 1] == view[..n - 1];
    }
  }

  /** `enforce_hermitian(data[view])`, serial path (hermitianize.py:66-90).
      Entries outside the view are never written; with even extents no
      broadcast error can occur. */
  function Enforce(shape: Shape, view: View, a: Grid): (r: Result<Grid>)
    requires ValidView(shape, view) && WellFormed(shape, a)
    ensures r.Ok? ==> WellFormed(shape, r.value)
    ensures r.Ok? ==> forall idx :: idx in a && !InView(view, idx) ==> r.value[idx] == a[idx]
    ensures LiveEven(shape, view) ==> r.Ok?
    decreases LiveCount(view), 1
  {
    if ViewSize(shape, view) == 1 then
      Ok(RealifyView(view, a))
    else
      var last := LastLive(view);
      var n := shape[last];
      if !FlipSupported(n) then Err(BroadcastError)
      else
        var a1 := Flip(shape, view, a);
        LiveCountFix(view, last, n / 2);
        var a2 :- Enforce(shape, view[last := Fixed(n / 2)], a1);
        ZeroPlanes(shape, view, a2, 0)
  }

  /** The `for i in xrange(data.ndim)` loop over the view's axes, recursing
      into the plane where axis `i` is zero.  For a one-dimensional view the
      source recurses on the length-one slice `0:1`, which has size one and is
      therefore just made real: the same as fixing the axis at 0. */
  function ZeroPlanes(shape: Shape, view: View, a: Grid, k: nat): (r: Result<Grid>)
    requires ValidView(shape, view) && WellFormed(shape, a) && k <= |shape|
    ensures r.Ok? ==> WellFormed(shape, r.value)
    ensures r.Ok? ==> forall idx :: idx in a && !InView(view, idx) ==> r.value[idx] == a[idx]
    ensures LiveEven(shape, view) ==> r.Ok?
    decreases LiveCount(view), 0, |shape| - k
  {
    if k == |shape| then Ok(a)
    else if view[k].Fixed? then ZeroPlanes(shape, view, a, k + 1)
    else
      LiveCountFix(view, k, 0);
      var b :- Enforce(shape, view[k := Fixed(0)], a);
      ZeroPlanes(shape, view, b, k + 1)
  }

  /** `enforce_hermitian(data)` with no communicator (the serial path). */
  function EnforceHermitian(shape: Shape, a: Grid): (r: Result<Grid>)
    requires PositiveShape(shape) && WellFormed(shape, a)
    ensures r.Ok? ==> WellFormed(shape, r.value)
    ensures (forall k :: 0 <= k < |shape| ==> shape[k] % 2 == 0) ==> r.Ok?
  {
    Enforce(shape, WholeArray(|shape|), a)
  }

  // ---------------------------------------------------------------------
  // zero_nyquist (hermitianize.py:93-103)
  // ---------------------------------------------------------------------

  /** Some axis `k >= from` sits at index `n_k / 2` (integer division). */
  predicate AtNyquistFrom(shape: Shape, idx: Index, from: nat)
    requires |idx| == |shape|
  {
    exists k :: from <= k < |shape| && idx[k] == shape[k] / 2
  }

  predicate AtNyquist(shape: Shape, idx: Index)
    requires |idx| == |shape|
  {
    AtNyquistFrom(shape, idx, 0)
  }

  /** Zero the plane `idx[axis] == n_axis / 2`. */
  function ZeroPlane(shape: Shape, g: Grid, axis: nat): (r: Grid)
    requires WellFormed(shape, g) && axis < |shape|
    ensures WellFormed(shape, r)
  {
    map idx | idx in g :: if idx[axis] == shape[axis] / 2 then Zero else g[idx]
  }

  /** The loop `for i in xrange(data.ndim)` from axis `from` on. */
  function ZeroNyquistFrom(shape: Shape, g: Grid, from: nat): (r: Grid)
    requires WellFormed(shape, g) && from <= |shape|
    ensures WellFormed(shape, r)
    ensures forall idx :: idx in g ==>
      r[idx] == (if AtNyquistFrom(shape, idx, from) then Zero else g[idx])
    decreases |shape| - from
  {
    if from == |shape| then g
    else ZeroNyquistFrom(shape, ZeroPlane(shape, g, from), from + 1)
  }

  /** `zero_nyquist(data)`: zero every entry with some coordinate at n/2. */
  function ZeroNyquist(shape: Shape, g: Grid): (r: Grid)
    requires WellFormed(shape, g)
    ensures WellFormed(shape, r)
    ensures forall idx :: idx in g ==> r[idx] == (if AtNyquist(shape, idx) then Zero else g[idx])
  {
    ZeroNyquistFrom(shape, g, 0)
  }

  lemma ZeroNyquistIdempotent(shape: Shape, g: Grid)
    requires WellFormed(shape, g)
    ensures ZeroNyquist(shape, ZeroNyquist(shape, g)) == ZeroNyquist(shape, g)
  {
    var once := ZeroNyquist(shape, g);
    var twice := ZeroNyquist(shape, once);
    assert forall idx :: idx in once ==> twice[idx] == once[idx];
  }
}
