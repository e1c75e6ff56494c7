/** What the serial enforcer achieves: on every array whose extents are all
    even, `enforce_hermitian` leaves `data[-idx] == conj(data[idx])` for every
    index (so `ifftn(data)` is real), and it leaves an already Hermitian array
    unchanged. */
module HermitianProofs {
  import opened Complex
  import opened Grids
  import opened Results
  import opened Hermitianize

  // ---------------------------------------------------------------------
  // Facts about views
  // ---------------------------------------------------------------------

  lemma ViewMirrorProps(shape: Shape, view: View, idx: Index)
    requires ValidView(shape, view) && InBounds(shape, idx) && InView(view, idx)
    ensures InBounds(shape, ViewMirror(shape, view, idx))
    ensures InView(view, ViewMirror(shape, view, idx))
    ensures ViewMirror(shape, view, ViewMirror(shape, view, idx)) == idx
  {
    var m := ViewMirror(shape, view, idx);
    forall k | 0 <= k < |idx| ensures 0 <= m[k] < shape[k] && ViewMirror(shape, view, m)[k] == idx[k] {
      MirrorCoordRange(shape[k], idx[k]);
    }
  }

  lemma NoLiveAllFixed(view: View)
    requires LiveCount(view) == 0
    ensures forall k :: 0 <= k < |view| ==> view[k].Fixed?
  {
    if |view| > 0 {
      NoLiveAllFixed(view[..|view| - 1]);
      assert forall k :: 0 <= k < |view| - 1 ==> view[k] == view[..|view| - 1][k];
    }
  }

  /** With even free extents (each at least two) the view has size one only
      when it has no free axis. */
  lemma {:induction false} UnitSizeMeansNoLive(shape: Shape, view: View)
    requires ValidView(shape, view) && LiveEven(shape, view) && ViewSize(shape, view) == 1
    ensures LiveCount(view) == 0
    decreases |view|
  {
    if |view| > 0 {
      var n := |view|;
      var sh := shape[..n - 1];
      var vw := view[..n - 1];
      assert ValidView(sh, vw) by {
        assert forall k :: 0 <= k < n - 1 ==> sh[k] == shape[k];
      }
      assert LiveEven(sh, vw) by {
        assert forall k :: 0 <= k < n - 1 ==> sh[k] == shape[k] && vw[k] == view[k];
      }
      var f := if view[n - 1].Free? then shape[n - 1] else 1;
      assert ViewSize(shape, view) == ViewSize(sh, vw) * f;
      ProductIsOne(ViewSize(sh, vw), f);
      UnitSizeMeansNoLive(sh, vw);
    }
  }

  lemma ProductAtLeast(x: nat, y: nat)
    requires x >= 1
    ensures x * y >= y
  {
  }

  lemma ProductIsOne(x: nat, y: nat)
    requires x * y == 1
    ensures x == 1 && y == 1
  {
  }

  /** Fixing a free axis at a self-mirrored coordinate (0, or n/2 with n even)
      does not change the mirror of the indices that stay in the view. */
  lemma SubViewMirror(shape: Shape, view: View, k: nat, c: int, idx: Index)
    requires ValidView(shape, view) && k < |view| && view[k].Free?
    requires MirrorCoord(shape[k], c) == c
    requires InBounds(shape, idx) && InView(view[k := Fixed(c)], idx)
    ensures InView(view, idx)
    ensures ViewMirror(shape, view[k := Fixed(c)], idx) == ViewMirror(shape, view, idx)
  {
  }

  /** ... and indices that leave the view have mirrors that leave it too. */
  lemma SubViewOutside(shape: Shape, view: View, k: nat, c: int, idx: Index)
    requires ValidView(shape, view) && k < |view| && view[k].Free?
    requires 0 <= c < shape[k] && MirrorCoord(shape[k], c) == c
    requires InBounds(shape, idx) && InView(view, idx) && !InView(view[k := Fixed(c)], idx)
    ensures !InView(view[k := Fixed(c)], ViewMirror(shape, view, idx))
  {
    MirrorCoordRange(shape[k], idx[k]);
    assert idx[k] != c;
  }

  // ---------------------------------------------------------------------
  // The flip step
  // ---------------------------------------------------------------------

  lemma FlipSourceIsMirror(shape: Shape, view: View, idx: Index)
    requires ValidView(shape, view) && LiveEven(shape, view) && LiveCount(view) > 0
    requires InBounds(shape, idx) && FlipTarget(shape, view, LastLive(view), idx)
    ensures FlipSource(shape, view, LastLive(view), idx) == ViewMirror(shape, view, idx)
  {
  }

  /** A pair already conjugate-symmetric is left as it is by the flip. */
  lemma FlipKeepsSym(shape: Shape, view: View, a: Grid, idx: Index)
    requires ValidView(shape, view) && WellFormed(shape, a) && LiveEven(shape, view) && LiveCount(view) > 0
    requires InBounds(shape, idx) && InView(view, idx) && SymAt(shape, view, a, idx)
    ensures Flip(shape, view, a)[idx] == a[idx]
    ensures Flip(shape, view, a)[ViewMirror(shape, view, idx)] == a[ViewMirror(shape, view, idx)]
  {
    var last := LastLive(view);
    var m := ViewMirror(shape, view, idx);
    ViewMirrorProps(shape, view, idx);
    if FlipTarget(shape, view, last, idx) {
      FlipSourceIsMirror(shape, view, idx);
      ConjInvolutive(a[idx]);
    }
    if FlipTarget(shape, view, last, m) {
      FlipSourceIsMirror(shape, view, m);
    }
  }

  /** After the flip every index with all free coordinates nonzero and the
      last one off the Nyquist column is paired with its mirror. */
  lemma FlipPairs(shape: Shape, view: View, a: Grid, idx: Index)
    requires ValidView(shape, view) && WellFormed(shape, a) && LiveEven(shape, view) && LiveCount(view) > 0
    requires InBounds(shape, idx) && InView(view, idx) && FreeNonzero(view, idx)
    requires idx[LastLive(view)] != shape[LastLive(view)] / 2
    ensures SymAt(shape, view, Flip(shape, view, a), idx)
  {
    var last := LastLive(view);
    var r := Flip(shape, view, a);
    var m := ViewMirror(shape, view, idx);
    ViewMirrorProps(shape, view, idx);
    if idx[last] > shape[last] / 2 {
      FlipSourceIsMirror(shape, view, idx);
      assert !FlipTarget(shape, view, last, m);
      ConjInvolutive(a[m]);
    } else {
      assert FlipTarget(shape, view, last, m);
      FlipSourceIsMirror(shape, view, m);
      assert !FlipTarget(shape, view, last, idx);
    }
  }

  // ---------------------------------------------------------------------
  // Local idempotence: a conjugate-symmetric pair is never disturbed
  // ---------------------------------------------------------------------

  /** An index whose pair is already conjugate-symmetric keeps its value
      through the whole recursion. */
  lemma {:induction false} EnforceKeepsSymmetricPair(shape: Shape, view: View, a: Grid, idx: Index)
    requires ValidView(shape, view) && WellFormed(shape, a) && LiveEven(shape, view)
    requires InBounds(shape, idx) && InView(view, idx) && SymAt(shape, view, a, idx)
    ensures Enforce(shape, view, a).Ok?
    ensures Enforce(shape, view, a).value[idx] == a[idx]
    decreases LiveCount(view), 2
  {
    if ViewSize(shape, view) == 1 {
      UnitSizeMeansNoLive(shape, view);
      NoLiveAllFixed(view);
      assert ViewMirror(shape, view, idx) == idx;
      SelfConjugateIsReal(a[idx]);
    } else {
      var last := LastLive(view);
      var n := shape[last];
      var a1 := Flip(shape, view, a);
      FlipKeepsSym(shape, view, a, idx);
      LiveCountFix(view, last, n / 2);
      SubViewKeepsSym(shape, view, last, n / 2, a1, idx);
      var a2 := Enforce(shape, view[last := Fixed(n / 2)], a1).value;
      ZeroPlanesKeepsSymmetricPair(shape, view, a2, 0, idx);
    }
  }

  /** Recursing into a plane through self-mirrored coordinates keeps a
      symmetric pair: inside the plane by induction, outside by the frame. */
  lemma {:induction false} SubViewKeepsSym(shape: Shape, view: View, k: nat, c: int, g: Grid, idx: Index)
    requires ValidView(shape, view) && WellFormed(shape, g) && LiveEven(shape, view)
    requires k < |view| && view[k].Free? && 0 <= c < shape[k] && MirrorCoord(shape[k], c) == c
    requires InBounds(shape, idx) && InView(view, idx) && SymAt(shape, view, g, idx)
    ensures Enforce(shape, view[k := Fixed(c)], g).Ok?
    ensures Enforce(shape, view[k := Fixed(c)], g).value[idx] == g[idx]
    ensures Enforce(shape, view[k := Fixed(c)], g).value[ViewMirror(shape, view, idx)]
            == g[ViewMirror(shape, view, idx)]
    decreases LiveCount(view), 0
  {
    var vc := view[k := Fixed(c)];
    LiveCountFix(view, k, c);
    var m := ViewMirror(shape, view, idx);
    ViewMirrorProps(shape, view, idx);
    if InView(vc, idx) {
      SubViewMirror(shape, view, k, c, idx);
      SubViewMirror(shape, view, k, c, m);
      EnforceKeepsSymmetricPair(shape, vc, g, idx);
      ConjInvolutive(g[idx]);
      EnforceKeepsSymmetricPair(shape, vc, g, m);
    } else {
      SubViewOutside(shape, view, k, c, idx);
    }
  }

  lemma {:induction false} ZeroPlanesKeepsSymmetricPair(shape: Shape, view: View, g: Grid, k: nat, idx: Index)
    requires ValidView(shape, view) && WellFormed(shape, g) && LiveEven(shape, view) && k <= |shape|
    requires InBounds(shape, idx) && InView(view, idx) && SymAt(shape, view, g, idx)
    ensures ZeroPlanes(shape, view, g, k).Ok?
    ensures ZeroPlanes(shape, view, g, k).value[idx] == g[idx]
    ensures ZeroPlanes(shape, view, g, k).value[ViewMirror(shape, view, idx)]
            == g[ViewMirror(shape, view, idx)]
    decreases LiveCount(view), 1, |shape| - k
  {
    if k == |shape| {
    } else if view[k].Fixed? {
      ZeroPlanesKeepsSymmetricPair(shape, view, g, k + 1, idx);
    } else {
      LiveCountFix(view, k, 0);
      SubViewKeepsSym(shape, view, k, 0, g, idx);
      var b := Enforce(shape, view[k := Fixed(0)], g).value;
      ZeroPlanesKeepsSymmetricPair(shape, view, b, k + 1, idx);
    }
  }

  // ---------------------------------------------------------------------
  // Every index ends up paired with its mirror
  // ---------------------------------------------------------------------

  /** Indices already made symmetric when the zero-plane loop reaches axis
      `k`: the flipped block, the Nyquist plane, and the earlier zero planes. */
  predicate Covered(shape: Shape, view: View, idx: Index, k: nat)
    requires ValidView(shape, view) && LiveCount(view) > 0 && |idx| == |view|
  {
    var last := LastLive(view);
    (FreeNonzero(view, idx) && idx[last] != shape[last] / 2)
    || idx[last] == shape[last] / 2
    || exists j :: 0 <= j < k && j < |view| && view[j].Free? && idx[j] == 0
  }

  lemma UnitViewSymmetric(shape: Shape, view: View, a: Grid)
    requires ValidView(shape, view) && WellFormed(shape, a) && LiveEven(shape, view)
    requires ViewSize(shape, view) == 1
    ensures forall idx :: InBounds(shape, idx) && InView(view, idx) ==>
      SymAt(shape, view, RealifyView(view, a), idx)
  {
    UnitSizeMeansNoLive(shape, view);
    NoLiveAllFixed(view);
    forall idx | InBounds(shape, idx) && InView(view, idx)
      ensures SymAt(shape, view, RealifyView(view, a), idx)
    {
      assert ViewMirror(shape, view, idx) == idx;
    }
  }

  /** After the flip and the Nyquist recursion, the flipped block and the
      Nyquist plane are symmetric. */
  lemma CoveredAfterNyquist(shape: Shape, view: View, a: Grid, a1: Grid, a2: Grid, idx: Index)
    requires ValidView(shape, view) && WellFormed(shape, a) && LiveEven(shape, view) && LiveCount(view) > 0
    requires a1 == Flip(shape, view, a)
    requires var last := LastLive(view);
      var vn := view[last := Fixed(shape[last] / 2)];
      Enforce(shape, vn, a1).Ok? && a2 == Enforce(shape, vn, a1).value
    requires InBounds(shape, idx) && InView(view, idx)
    requires Covered(shape, view, idx, 0)
    requires var last := LastLive(view);
      idx[last] == shape[last] / 2 ==> SymAt(shape, view[last := Fixed(shape[last] / 2)], a2, idx)
    ensures SymAt(shape, view, a2, idx)
  {
    var last := LastLive(view);
    var h := shape[last] / 2;
    ViewMirrorProps(shape, view, idx);
    if idx[last] == h {
      SubViewMirror(shape, view, last, h, idx);
    } else {
      FlipPairs(shape, view, a, idx);
      SubViewOutside(shape, view, last, h, idx);
    }
  }

  lemma {:induction false} EnforceSymmetricInView(shape: Shape, view: View, a: Grid)
    requires ValidView(shape, view) && WellFormed(shape, a) && LiveEven(shape, view)
    ensures Enforce(shape, view, a).Ok?
    ensures forall idx :: InBounds(shape, idx) && InView(view, idx) ==>
      SymAt(shape, view, Enforce(shape, view, a).value, idx)
    decreases LiveCount(view), 1
  {
    if ViewSize(shape, view) == 1 {
      UnitViewSymmetric(shape, view, a);
    } else {
      var last := LastLive(view);
      var h := shape[last] / 2;
      var a1 := Flip(shape, view, a);
      var vn := view[last := Fixed(h)];
      LiveCountFix(view, last, h);
      var a2 := Enforce(shape, vn, a1).value;
      EnforceSymmetricInView(shape, vn, a1);
      forall idx | InBounds(shape, idx) && InView(view, idx) && Covered(shape, view, idx, 0)
        ensures SymAt(shape, view, a2, idx)
      {
        CoveredAfterNyquist(shape, view, a, a1, a2, idx);
      }
      ZeroPlanesSymmetric(shape, view, a2, 0);
    }
  }

  lemma CoveredAtEnd(shape: Shape, view: View, idx: Index)
    requires ValidView(shape, view) && LiveCount(view) > 0
    requires InBounds(shape, idx) && InView(view, idx)
    ensures Covered(shape, view, idx, |shape|)
  {
    if !FreeNonzero(view, idx) {
      var j :| 0 <= j < |view| && view[j].Free? && idx[j] < 1;
      assert idx[j] == 0;
    }
  }

  lemma CoveredSkipFixed(shape: Shape, view: View, idx: Index, k: nat)
    requires ValidView(shape, view) && LiveCount(view) > 0 && k < |view|
    requires InBounds(shape, idx) && InView(view, idx)
    requires view[k].Fixed? || idx[k] != 0
    requires Covered(shape, view, idx, k + 1)
    ensures Covered(shape, view, idx, k)
  {
    if exists j :: 0 <= j < k + 1 && j < |view| && view[j].Free? && idx[j] == 0 {
      var j :| 0 <= j < k + 1 && j < |view| && view[j].Free? && idx[j] == 0;
      assert j < k;
    }
  }

  /** One step of the zero-plane loop keeps what was symmetric and makes the
      new plane symmetric. */
  lemma ZeroStepCovered(shape: Shape, view: View, k: nat, g: Grid, b: Grid, idx: Index)
    requires ValidView(shape, view) && WellFormed(shape, g) && LiveEven(shape, view) && LiveCount(view) > 0
    requires k < |view| && view[k].Free?
    requires Enforce(shape, view[k := Fixed(0)], g).Ok? && b == Enforce(shape, view[k := Fixed(0)], g).value
    requires forall idx :: InBounds(shape, idx) && InView(view, idx) && Covered(shape, view, idx, k) ==>
      SymAt(shape, view, g, idx)
    requires InBounds(shape, idx) && InView(view, idx) && Covered(shape, view, idx, k + 1)
    requires idx[k] == 0 ==> SymAt(shape, view[k := Fixed(0)], b, idx)
    ensures SymAt(shape, view, b, idx)
  {
    if idx[k] == 0 {
      SubViewMirror(shape, view, k, 0, idx);
    } else {
      CoveredSkipFixed(shape, view, idx, k);
      SubViewKeepsSym(shape, view, k, 0, g, idx);
    }
  }

  lemma {:induction false} ZeroPlanesSymmetric(shape: Shape, view: View, g: Grid, k: nat)
    requires ValidView(shape, view) && WellFormed(shape, g) && LiveEven(shape, view)
    requires LiveCount(view) > 0 && k <= |shape|
    requires forall idx :: InBounds(shape, idx) && InView(view, idx) && Covered(shape, view, idx, k) ==>
      SymAt(shape, view, g, idx)
    ensures ZeroPlanes(shape, view, g, k).Ok?
    ensures forall idx :: InBounds(shape, idx) && InView(view, idx) ==>
      SymAt(shape, view, ZeroPlanes(shape, view, g, k).value, idx)
    decreases LiveCount(view), 0, |shape| - k
  {
    if k == |shape| {
      forall idx | InBounds(shape, idx) && InView(view, idx) ensures SymAt(shape, view, g, idx) {
        CoveredAtEnd(shape, view, idx);
      }
    } else if view[k].Fixed? {
      forall idx | InBounds(shape, idx) && InView(view, idx) && Covered(shape, view, idx, k + 1)
        ensures SymAt(shape, view, g, idx)
      {
        CoveredSkipFixed(shape, view, idx, k);
      }
      ZeroPlanesSymmetric(shape, view, g, k + 1);
    } else {
      var vz := view[k := Fixed(0)];
      LiveCountFix(view, k, 0);
      var b := Enforce(shape, vz, g).value;
      EnforceSymmetricInView(shape, vz, g);
      forall idx | InBounds(shape, idx) && InView(view, idx) && Covered(shape, view, idx, k + 1)
        ensures SymAt(shape, view, b, idx)
      {
        ZeroStepCovered(shape, view, k, g, b, idx);
      }
      ZeroPlanesSymmetric(shape, view, b, k + 1);
    }
  }

  // ---------------------------------------------------------------------
  // The whole array
  // ---------------------------------------------------------------------

  lemma WholeArrayMirror(shape: Shape, idx: Index)
    requires |idx| == |shape|
    ensures ViewMirror(shape, WholeArray(|shape|), idx) == Mirror(shape, idx)
  {
  }

  /** With every extent even, the serial enforcer succeeds and its result is
      Hermitian: `data[-idx] == conj(data[idx])` for every index. */
  lemma EnforceHermitianSymmetric(shape: Shape, a: Grid)
    requires PositiveShape(shape) && WellFormed(shape, a)
    requires forall k :: 0 <= k < |shape| ==> shape[k] % 2 == 0
    ensures EnforceHermitian(shape, a).Ok?
    ensures Hermitian(shape, EnforceHermitian(shape, a).value)
  {
    var v := WholeArray(|shape|);
    EnforceSymmetricInView(shape, v, a);
    var r := EnforceHermitian(shape, a).value;
    forall idx | idx in r && |idx| == |shape|
      ensures Mirror(shape, idx) in r && r[Mirror(shape, idx)] == Conj(r[idx])
    {
      WholeArrayMirror(shape, idx);
      assert SymAt(shape, v, r, idx);
    }
  }

  /** The enforcer leaves an already Hermitian array unchanged. */
  lemma EnforceHermitianIdempotent(shape: Shape, a: Grid)
    requires PositiveShape(shape) && WellFormed(shape, a) && Hermitian(shape, a)
    requires forall k :: 0 <= k < |shape| ==> shape[k] % 2 == 0
    ensures EnforceHermitian(shape, a) == Ok(a)
  {
    var v := WholeArray(|shape|);
    assert EnforceHermitian(shape, a) == Enforce(shape, v, a);
    var r := Enforce(shape, v, a).value;
    forall idx | idx in a ensures r[idx] == a[idx] {
      HermitianPairAt(shape, a, idx);
      EnforceKeepsSymmetricPair(shape, v, a, idx);
    }
    MapsEqual(shape, r, a);
  }

  lemma HermitianPairAt(shape: Shape, a: Grid, idx: Index)
    requires PositiveShape(shape) && WellFormed(shape, a) && Hermitian(shape, a) && idx in a
    ensures InBounds(shape, idx) && InView(WholeArray(|shape|), idx)
    ensures SymAt(shape, WholeArray(|shape|), a, idx)
  {
    WholeArrayMirror(shape, idx);
  }

  /** Applying the enforcer twice is the same as applying it once. */
  lemma EnforceHermitianTwice(shape: Shape, a: Grid)
    requires PositiveShape(shape) && WellFormed(shape, a)
    requires forall k :: 0 <= k < |shape| ==> shape[k] % 2 == 0
    ensures EnforceHermitian(shape, a).Ok?
    ensures EnforceHermitian(shape, EnforceHermitian(shape, a).value) == EnforceHermitian(shape, a)
  {
    EnforceHermitianSymmetric(shape, a);
    EnforceHermitianIdempotent(shape, EnforceHermitian(shape, a).value);
  }

  /** The zero mode, and every mode built only from coordinates 0 and n/2,
      comes out real. */
  lemma SelfMirroredModesReal(shape: Shape, a: Grid, idx: Index)
    requires PositiveShape(shape) && WellFormed(shape, a)
    requires forall k :: 0 <= k < |shape| ==> shape[k] % 2 == 0
    requires InBounds(shape, idx)
    requires forall k :: 0 <= k < |idx| ==> idx[k] == 0 || idx[k] == shape[k] / 2
    ensures EnforceHermitian(shape, a).Ok?
    ensures IsReal(EnforceHermitian(shape, a).value[idx])
  {
    EnforceHermitianSymmetric(shape, a);
    SelfMirroredIndex(shape, idx);
    HermitianSelfMirrorReal(shape, EnforceHermitian(shape, a).value, idx);
  }

  lemma SelfMirroredIndex(shape: Shape, idx: Index)
    requires InBounds(shape, idx)
    requires forall k :: 0 <= k < |shape| ==> shape[k] % 2 == 0
    requires forall k :: 0 <= k < |idx| ==> idx[k] == 0 || idx[k] == shape[k] / 2
    ensures Mirror(shape, idx) == idx
  {
    forall k | 0 <= k < |idx| ensures Mirror(shape, idx)[k] == idx[k] {
      assert MirrorCoord(shape[k], idx[k]) == idx[k];
    }
  }

  lemma WholeArraySize(shape: Shape)
    ensures ViewSize(shape, WholeArray(|shape|)) == Size(shape)
    decreases |shape|
  {
    if |shape| > 0 {
      var n := |shape|;
      assert WholeArray(n)[..n - 1] == WholeArray(n - 1);
      WholeArraySize(shape[..n - 1]);
    }
  }

  /** A single-element array only has its imaginary part cleared. */
  lemma EnforceHermitianSizeOne(shape: Shape, a: Grid)
    requires PositiveShape(shape) && WellFormed(shape, a) && Size(shape) == 1
    ensures EnforceHermitian(shape, a).Ok?
    ensures forall idx :: idx in a ==> EnforceHermitian(shape, a).value[idx] == RealPart(a[idx])
  {
    WholeArraySize(shape);
  }

  /** A last axis of odd length other than 1 and 5 makes the two slices of the
      flip step differ in length: numpy raises. */
  lemma EnforceHermitianOddLastAxis(shape: Shape, a: Grid)
    requires PositiveShape(shape) && WellFormed(shape, a) && |shape| >= 1
    requires shape[|shape| - 1] % 2 == 1 && shape[|shape| - 1] != 1 && shape[|shape| - 1] != 5
    ensures EnforceHermitian(shape, a) == Err(BroadcastError)
  {
    var n := |shape|;
    var v := WholeArray(n);
    WholeArraySize(shape);
    assert Size(shape) == Size(shape[..n - 1]) * shape[n - 1];
    assert PositiveShape(shape[..n - 1]) by {
      assert forall k :: 0 <= k < n - 1 ==> shape[..n - 1][k] == shape[k];
    }
    SizePositive(shape[..n - 1]);
    ProductAtLeast(Size(shape[..n - 1]), shape[n - 1]);
    assert LastLive(v) == n - 1;
  }

  /** The flip step on the whole array with an even last axis overwrites
      (it does not average) each entry with all coordinates nonzero and the
      last one above n/2 by the conjugate of its mirror, and writes nothing
      else. */
  lemma FlipOverwritesUpperHalf(shape: Shape, a: Grid, idx: Index)
    requires PositiveShape(shape) && WellFormed(shape, a) && |shape| >= 1
    requires shape[|shape| - 1] % 2 == 0
    requires idx in a
    ensures var v := WholeArray(|shape|);
      var last := |shape| - 1;
      Flip(shape, v, a)[idx]
      == if (forall k :: 0 <= k < |idx| ==> idx[k] >= 1) && idx[last] > shape[last] / 2
         then Conj(a[Mirror(shape, idx)])
         else a[idx]
  {
    var v := WholeArray(|shape|);
    assert LastLive(v) == |shape| - 1;
    if FlipTarget(shape, v, |shape| - 1, idx) {
      assert FlipSource(shape, v, |shape| - 1, idx) == Mirror(shape, idx);
    }
  }
}
