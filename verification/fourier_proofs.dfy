/** Properties of `FourierRepresentation`: what `forward` leaves in the
    buffer, the cleanups as projections, the two strategies' scaling, the
    in-place copy read back, and derivatives of real fields. */
module FourierProofs {
  import opened Complex
  import opened Grids
  import opened Results
  import opened Wavenumbers
  import opened FourierField
  import Hermitianize

  /** The transform output one strategy leaves before the cleanups. */
  function Raw(dft: Dft, f: Field, idx: Index): Complex
    requires Valid(f) && f.strategy != NoMethod && idx in f.data
  {
    if f.strategy == Fftw then Scale(InvSize(f.shape), dft.forward(f.data, idx))
    else dft.forward(f.data, idx)
  }

  /** Modes `forward` zeroes whatever their value: masked ones, when
      dealiasing is on, and those at `S_i/2` on some axis. */
  predicate Cleared(f: Field, idx: Index)
    requires Valid(f) && InBounds(f.shape, idx)
  {
    (f.dealias && MaskTerms(|f.shape|).Ok? && Masked(f.shape, f.lengths, MaskTerms(|f.shape|).value, idx))
    || Hermitianize.AtNyquist(f.shape, idx)
  }

  /** On a spectral buffer the cleanups do not transform: each is its index
      update alone. */
  lemma CleanupsInKSpace(dft: Dft, f: Field)
    requires Valid(f) && f.tag == KSpace
    ensures ToKSpace(dft, f) == Ok(f)
    ensures ZeroNyquist(dft, f) == Ok(f.(data := Hermitianize.ZeroNyquist(f.shape, f.data)))
    ensures ZeroUnderEps(dft, f) == Ok(f.(data := ZeroSmall(f.shape, f.data)))
    ensures Dealias23(dft, f) == (if MaskTerms(|f.shape|).Ok?
                                  then Ok(f.(data := MaskOut(f.shape, f.lengths, MaskTerms(|f.shape|).value, f.data)))
                                  else Err(KeyError))
  {
    assert ToKSpace(dft, f) == Ok(f);
  }

  /** `forward` fails only when no transform is bound or the mask cannot be
      built; otherwise it leaves the tag `'kspace'` and each coefficient is
      zero if cleared or below epsilon, and the transform's value otherwise.
      fftw works in the same buffer, numpy in a new one. */
  lemma ForwardResult(dft: Dft, f: Field)
    requires Valid(f)
    ensures Forward(dft, f).Err? <==> f.strategy == NoMethod || (f.dealias && MaskTerms(|f.shape|).Err?)
    ensures Forward(dft, f).Ok? ==>
      var g := Forward(dft, f).value;
      && g.tag == KSpace
      && (f.strategy == Fftw ==> g.storage == f.storage)
      && (f.strategy == Numpy ==> g.storage == f.storage + 1)
      && forall idx :: idx in f.data ==>
           idx in g.data
           && g.data[idx] == (if Cleared(f, idx) || Small(Raw(dft, f, idx)) then Zero else Raw(dft, f, idx))
  {
    if f.strategy != NoMethod {
      var g1 := Fft(dft, f).value.(tag := KSpace);
      CleanupsInKSpace(dft, g1);
      if !(f.dealias && MaskTerms(|f.shape|).Err?) {
        var g2 := if g1.dealias then Dealias23(dft, g1).value else g1;
        CleanupsInKSpace(dft, g2);
        var g3 := ZeroNyquist(dft, g2).value;
        CleanupsInKSpace(dft, g3);
        var g4 := ZeroUnderEps(dft, g3).value;
        assert Forward(dft, f) == Ok(g4);
        assert Small(Zero);
        forall idx | idx in f.data
          ensures g4.data[idx] == (if Cleared(f, idx) || Small(Raw(dft, f, idx)) then Zero else Raw(dft, f, idx))
        {
          assert g1.data[idx] == Raw(dft, f, idx);
        }
      }
    }
  }

  // ---------------------------------------------------------------------
  // The cleanups are projections
  // ---------------------------------------------------------------------

  lemma Dealias23Idempotent(dft: Dft, f: Field)
    requires Valid(f) && f.tag == KSpace && Dealias23(dft, f).Ok?
    ensures Dealias23(dft, Dealias23(dft, f).value) == Dealias23(dft, f)
  {
    CleanupsInKSpace(dft, f);
    var g := Dealias23(dft, f).value;
    CleanupsInKSpace(dft, g);
    MaskOutIdempotent(f.shape, f.lengths, MaskTerms(|f.shape|).value, f.data);
  }

  lemma MaskOutIdempotent(shape: Shape, lengths: seq<real>, terms: seq<Term>, g: Grid)
    requires WellFormed(shape, g) && |lengths| == |shape|
    requires forall k :: 0 <= k < |lengths| ==> lengths[k] > 0.0
    requires forall t :: t in terms ==> t.axis < |shape| && t.nyAxis < |shape|
    ensures MaskOut(shape, lengths, terms, MaskOut(shape, lengths, terms, g)) == MaskOut(shape, lengths, terms, g)
  {
    var once := MaskOut(shape, lengths, terms, g);
    var twice := MaskOut(shape, lengths, terms, once);
    assert forall idx :: idx in once ==> twice[idx] == once[idx];
  }

  lemma ZeroNyquistIdempotent(dft: Dft, f: Field)
    requires Valid(f) && f.tag == KSpace
    ensures ZeroNyquist(dft, f).Ok?
    ensures ZeroNyquist(dft, ZeroNyquist(dft, f).value) == ZeroNyquist(dft, f)
  {
    CleanupsInKSpace(dft, f);
    CleanupsInKSpace(dft, ZeroNyquist(dft, f).value);
    Hermitianize.ZeroNyquistIdempotent(f.shape, f.data);
  }

  lemma ZeroUnderEpsIdempotent(dft: Dft, f: Field)
    requires Valid(f) && f.tag == KSpace
    ensures ZeroUnderEps(dft, f).Ok?
    ensures ZeroUnderEps(dft, ZeroUnderEps(dft, f).value) == ZeroUnderEps(dft, f)
  {
    CleanupsInKSpace(dft, f);
    var g := ZeroUnderEps(dft, f).value;
    CleanupsInKSpace(dft, g);
    var h := ZeroUnderEps(dft, g).value;
    assert Small(Zero);
    assert h.data == g.data;
  }

  /** A buffer `forward` produced is left alone by every cleanup: running
      any of them again (as `set` and `backward` do) changes nothing. */
  lemma ForwardIsClean(dft: Dft, f: Field)
    requires Valid(f) && Forward(dft, f).Ok?
    ensures var g := Forward(dft, f).value;
      && ZeroNyquist(dft, g) == Ok(g)
      && ZeroUnderEps(dft, g) == Ok(g)
      && (g.dealias ==> Dealias23(dft, g) == Ok(g))
  {
    ForwardResult(dft, f);
    var g := Forward(dft, f).value;
    CleanupsInKSpace(dft, g);
    assert Small(Zero);
    CleanEntries(dft, f);
  }

  /** What `forward` leaves at one index: zero, or a value that is neither
      cleared nor below epsilon. */
  predicate CleanAt(f: Field, idx: Index)
    requires Valid(f) && idx in f.data
  {
    f.data[idx] == Zero || (!Cleared(f, idx) && !Small(f.data[idx]))
  }

  lemma ForwardCleanAt(dft: Dft, f: Field)
    requires Valid(f) && Forward(dft, f).Ok?
    ensures forall idx :: idx in Forward(dft, f).value.data ==> CleanAt(Forward(dft, f).value, idx)
  {
    ForwardResult(dft, f);
  }

  lemma CleanEntries(dft: Dft, f: Field)
    requires Valid(f) && Forward(dft, f).Ok?
    ensures var g := Forward(dft, f).value;
      && Hermitianize.ZeroNyquist(g.shape, g.data) == g.data
      && ZeroSmall(g.shape, g.data) == g.data
      && (g.dealias ==> MaskTerms(|g.shape|).Ok? && MaskOut(g.shape, g.lengths, MaskTerms(|g.shape|).value, g.data) == g.data)
  {
    ForwardResult(dft, f);
    var g := Forward(dft, f).value;
    ForwardCleanAt(dft, f);
    CleanFixed(g);
  }

  lemma CleanFixed(g: Field)
    requires Valid(g) && forall idx :: idx in g.data ==> CleanAt(g, idx)
    ensures Hermitianize.ZeroNyquist(g.shape, g.data) == g.data
    ensures ZeroSmall(g.shape, g.data) == g.data
    ensures g.dealias && MaskTerms(|g.shape|).Ok? ==>
      MaskOut(g.shape, g.lengths, MaskTerms(|g.shape|).value, g.data) == g.data
  {
    CleanNyquistFixed(g);
    CleanSmallFixed(g);
    if g.dealias && MaskTerms(|g.shape|).Ok? {
      CleanMaskFixed(g);
    }
  }

  lemma CleanNyquistFixed(g: Field)
    requires Valid(g) && forall idx :: idx in g.data ==> CleanAt(g, idx)
    ensures Hermitianize.ZeroNyquist(g.shape, g.data) == g.data
  {
    var n := Hermitianize.ZeroNyquist(g.shape, g.data);
    forall idx | idx in g.data ensures n[idx] == g.data[idx] {
      assert CleanAt(g, idx);
    }
  }

  lemma CleanSmallFixed(g: Field)
    requires Valid(g) && forall idx :: idx in g.data ==> CleanAt(g, idx)
    ensures ZeroSmall(g.shape, g.data) == g.data
  {
    var z := ZeroSmall(g.shape, g.data);
    forall idx | idx in g.data ensures z[idx] == g.data[idx] {
      CleanSmallAt(g, idx);
    }
    MapsEqual(g.shape, z, g.data);
  }

  lemma CleanSmallAt(g: Field, idx: Index)
    requires Valid(g) && idx in g.data && CleanAt(g, idx)
    ensures ZeroSmall(g.shape, g.data)[idx] == g.data[idx]
  {
    if g.data[idx] != Zero {
      assert !Small(g.data[idx]);
    }
  }

  lemma CleanMaskFixed(g: Field)
    requires Valid(g) && forall idx :: idx in g.data ==> CleanAt(g, idx)
    requires g.dealias && MaskTerms(|g.shape|).Ok?
    ensures MaskOut(g.shape, g.lengths, MaskTerms(|g.shape|).value, g.data) == g.data
  {
    var m := MaskOut(g.shape, g.lengths, MaskTerms(|g.shape|).value, g.data);
    forall idx | idx in g.data ensures m[idx] == g.data[idx] {
      assert CleanAt(g, idx);
    }
  }

  // ---------------------------------------------------------------------
  // The two strategies
  // ---------------------------------------------------------------------

  /** fftw's spectral coefficients are numpy's divided by `size`; numpy's
      physical values are fftw's divided by `size`.  Only the normalisation
      differs, and it is applied in opposite directions. */
  lemma StrategyScaling(dft: Dft, f: Field)
    requires Valid(f) && f.strategy == Fftw
    ensures var n := f.(strategy := Numpy);
      && Valid(n)
      && Fft(dft, f).Ok? && Fft(dft, n).Ok? && Ifft(dft, f).Ok? && Ifft(dft, n).Ok?
      && forall idx :: idx in f.data ==>
           && Fft(dft, f).value.data[idx] == Scale(InvSize(f.shape), Fft(dft, n).value.data[idx])
           && Ifft(dft, n).value.data[idx] == Scale(InvSize(f.shape), Ifft(dft, f).value.data[idx])
  {
  }

  /** `backward` dealiases before it transforms: on a spectral buffer the
      mask is built first (`KeyError` when it cannot be), then the inverse
      transform of the bound strategy sees the masked buffer. fftw writes
      the same buffer; numpy scales by `1/size` into a new one. */
  lemma BackwardDealiasesFirst(dft: Dft, f: Field)
    requires Valid(f) && f.tag == KSpace && f.dealias
    ensures MaskTerms(|f.shape|).Err? ==> Backward(dft, f) == Err(KeyError)
    ensures MaskTerms(|f.shape|).Ok? && f.strategy == NoMethod ==> Backward(dft, f) == Err(AttributeError)
    ensures Backward(dft, f).Ok? <==> MaskTerms(|f.shape|).Ok? && f.strategy != NoMethod
    ensures Backward(dft, f).Ok? ==>
      Backward(dft, f).value.storage == (if f.strategy == Fftw then f.storage else f.storage + 1)
    ensures Backward(dft, f).Ok? ==>
      var m := MaskOut(f.shape, f.lengths, MaskTerms(|f.shape|).value, f.data);
      forall idx :: idx in f.data ==>
        idx in Backward(dft, f).value.data
        && Backward(dft, f).value.data[idx]
           == (if f.strategy == Fftw then RealPart(dft.backward(m, idx))
               else RealPart(Scale(InvSize(f.shape), dft.backward(m, idx))))
  {
    CleanupsInKSpace(dft, f);
  }

  // ---------------------------------------------------------------------
  // __getitem__
  // ---------------------------------------------------------------------

  /** Asking twice for the same space transforms at most once: the second
      request returns the representation the first one left. */
  lemma GetTwice(dft: Dft, space: string, f: Field)
    requires Valid(f) && Get(dft, space, f).Ok?
    ensures Get(dft, space, Get(dft, space, f).value) == Get(dft, space, f)
  {
  }

  /** A round trip through physical space and back to spectral space is a
      forward transform of a backward transform. */
  lemma GetRoundTrip(dft: Dft, f: Field)
    requires Valid(f) && f.tag == KSpace && Get(dft, XSpace, f).Ok?
    ensures Get(dft, KSpace, Get(dft, XSpace, f).value) == Forward(dft, Backward(dft, f).value)
  {
  }

  // ---------------------------------------------------------------------
  // __setitem__
  // ---------------------------------------------------------------------

  function Plus(idx: Index, dshape: Shape): (r: Index)
    requires |idx| == |dshape|
    ensures |r| == |idx| && forall k :: 0 <= k < |r| ==> r[k] == idx[k] + Offset(dshape[k])
  {
    seq(|idx|, k requires 0 <= k < |idx| => idx[k] + Offset(dshape[k]))
  }

  /** Reading back a block copy: every entry of the smaller array sits at
      its index plus `d/4+1`, and every entry outside that block is the
      buffer's old value. */
  lemma CopyInBlockReadBack(shape: Shape, g: Grid, dshape: Shape, d: Grid)
    requires WellFormed(shape, g) && |dshape| == |shape| && PositiveShape(dshape) && WellFormed(dshape, d)
    requires Size(dshape) < Size(shape)
    requires forall k :: 0 <= k < |shape| ==> Offset(dshape[k]) + dshape[k] <= shape[k]
    ensures CopyIn(shape, g, dshape, d).Ok?
    ensures forall j :: j in d ==> Plus(j, dshape) in g && CopyIn(shape, g, dshape, d).value[Plus(j, dshape)] == d[j]
    ensures forall idx :: idx in g && !InBlock(dshape, idx) ==> CopyIn(shape, g, dshape, d).value[idx] == g[idx]
  {
    var r := CopyIn(shape, g, dshape, d).value;
    forall j | j in d ensures Plus(j, dshape) in g && r[Plus(j, dshape)] == d[j] {
      var p := Plus(j, dshape);
      assert InBounds(shape, p);
      assert InBlock(dshape, p);
      assert Shift(dshape, p) == j;
    }
  }

  /** `set` rejects a smaller array that overruns the buffer on an axis of
      extent above 1, and a larger one narrower than the buffer on such an
      axis. */
  lemma CopyInRejects(shape: Shape, g: Grid, dshape: Shape, d: Grid)
    requires WellFormed(shape, g) && |dshape| == |shape| && PositiveShape(dshape) && WellFormed(dshape, d)
    ensures CopyIn(shape, g, dshape, d).Err? <==>
      exists k :: 0 <= k < |shape| && dshape[k] != 1 &&
        (if Size(dshape) < Size(shape) then Offset(dshape[k]) + dshape[k] > shape[k] else dshape[k] < shape[k])
  {
  }

  /** Reading back a corner copy of an array at least as large on every
      axis: the buffer holds exactly the array's leading corner. */
  lemma CopyInCornerReadBack(shape: Shape, g: Grid, dshape: Shape, d: Grid)
    requires WellFormed(shape, g) && |dshape| == |shape| && PositiveShape(dshape) && WellFormed(dshape, d)
    requires forall k :: 0 <= k < |shape| ==> dshape[k] >= shape[k]
    ensures CopyIn(shape, g, dshape, d).Ok?
    ensures forall idx :: idx in g ==> idx in d && CopyIn(shape, g, dshape, d).value[idx] == d[idx]
  {
    SizeMonotone(shape, dshape);
    var r := CopyIn(shape, g, dshape, d).value;
    forall idx | idx in g ensures idx in d && r[idx] == d[idx] {
      assert CornerSource(dshape, idx) == idx;
    }
  }

  lemma SizeMonotone(small: Shape, big: Shape)
    requires |small| == |big| && forall k :: 0 <= k < |small| ==> small[k] <= big[k]
    ensures Size(small) <= Size(big)
    decreases |small|
  {
    if |small| > 0 {
      var n := |small|;
      SizeMonotone(small[..n - 1], big[..n - 1]);
      MulMonotone(Size(small[..n - 1]), Size(big[..n - 1]), small[n - 1], big[n - 1]);
    }
  }

  lemma MulMonotone(a: nat, b: nat, c: nat, d: nat)
    requires a <= b && c <= d
    ensures a * c <= b * d
  {
    assert a * c <= b * c;
    assert b * c <= b * d;
  }

  /** Without dealiasing `set` is the copy alone: the tag is taken as given
      (any token) and the buffer is the same one. */
  lemma SetPlain(dft: Dft, f: Field, space: string, dshape: Shape, d: Grid)
    requires Valid(f) && |dshape| == |f.shape| && PositiveShape(dshape) && WellFormed(dshape, d)
    requires !f.dealias
    ensures Set(dft, f, space, dshape, d).Ok? <==> CopyIn(f.shape, f.data, dshape, d).Ok?
    ensures Set(dft, f, space, dshape, d).Ok? ==>
      var g := Set(dft, f, space, dshape, d).value;
      g.tag == space && g.storage == f.storage && g.data == CopyIn(f.shape, f.data, dshape, d).value
  {
  }

  /** A spectral `set` with dealiasing zeroes exactly the masked modes of
      the copied buffer, in place. */
  lemma SetKSpace(dft: Dft, f: Field, dshape: Shape, d: Grid)
    requires Valid(f) && |dshape| == |f.shape| && PositiveShape(dshape) && WellFormed(dshape, d)
    requires f.dealias && MaskTerms(|f.shape|).Ok? && CopyIn(f.shape, f.data, dshape, d).Ok?
    ensures Set(dft, f, KSpace, dshape, d).Ok?
    ensures var g := Set(dft, f, KSpace, dshape, d).value;
      && g.tag == KSpace && g.storage == f.storage
      && g.data == MaskOut(f.shape, f.lengths, MaskTerms(|f.shape|).value, CopyIn(f.shape, f.data, dshape, d).value)
  {
    CleanupsInKSpace(dft, f.(data := CopyIn(f.shape, f.data, dshape, d).value, tag := KSpace));
  }

  /** Any other `set` with dealiasing forces a full `forward` of the copied
      buffer (the dealias step asks for spectral space), so the
      representation ends in `'kspace'`, and numpy rebinds the buffer. */
  lemma SetOtherSpaceForwards(dft: Dft, f: Field, space: string, dshape: Shape, d: Grid)
    requires Valid(f) && |dshape| == |f.shape| && PositiveShape(dshape) && WellFormed(dshape, d)
    requires f.dealias && space != KSpace && CopyIn(f.shape, f.data, dshape, d).Ok?
    requires MaskTerms(|f.shape|).Ok? && f.strategy != NoMethod
    ensures Set(dft, f, space, dshape, d).Ok?
    ensures var c := f.(data := CopyIn(f.shape, f.data, dshape, d).value, tag := space);
      && Forward(dft, c).Ok?
      && Set(dft, f, space, dshape, d).value == Forward(dft, c).value
      && Set(dft, f, space, dshape, d).value.tag == KSpace
      && (f.strategy == Numpy ==> Set(dft, f, space, dshape, d).value.storage != f.storage)
  {
    var c := f.(data := CopyIn(f.shape, f.data, dshape, d).value, tag := space);
    ForwardResult(dft, c);
    assert Dealias23(dft, c) == Ok(MaskOutField(Forward(dft, c).value)) by {
      assert ToKSpace(dft, c) == Forward(dft, c);
    }
    ForwardIsClean(dft, c);
  }

  function MaskOutField(f: Field): Field
    requires Valid(f) && MaskTerms(|f.shape|).Ok?
  {
    f.(data := MaskOut(f.shape, f.lengths, MaskTerms(|f.shape|).value, f.data))
  }

  // ---------------------------------------------------------------------
  // deriv and k2
  // ---------------------------------------------------------------------

  /** From physical space `deriv` transforms first, and the field keeps the
      transformed buffer. */
  lemma DerivFromXSpace(dft: Dft, f: Field, dim: char)
    requires Valid(f) && f.tag == XSpace && Forward(dft, f).Ok?
    ensures Deriv(dft, f, dim).Ok? <==> LabelAxis(|f.shape|, dim).Ok?
    ensures Deriv(dft, f, dim).Ok? ==> Deriv(dft, f, dim).value.0 == Forward(dft, f).value
  {
  }

  lemma WavenumberMirror(s: nat, len: real, c: int)
    requires len > 0.0 && 0 <= c < s && !(s % 2 == 0 && c == s / 2)
    ensures 0 <= MirrorCoord(s, c) < s
    ensures Wavenumber(s, len, MirrorCoord(s, c)) == -Wavenumber(s, len, c)
  {
    MirrorCoordRange(s, c);
    FreqIndexMirror(s, c);
    WavenumberClosedForm(s, len, c);
    WavenumberClosedForm(s, len, MirrorCoord(s, c));
  }

  /** `conj(x) * (-ik) == conj(x * ik)` for real `k`. */
  lemma MulIKConj(x: Complex, k: real)
    ensures Mul(Conj(x), Complex(0.0, -k)) == Conj(Mul(x, Complex(0.0, k)))
  {
  }

  lemma MulZero(k: real)
    ensures Mul(Zero, Complex(0.0, k)) == Zero
  {
  }

  lemma DerivEntryMirror(f: Field, axis: nat, idx: Index)
    requires Valid(f) && axis < |f.shape| && idx in f.data && Hermitian(f.shape, f.data)
    requires forall j :: j in f.data && Hermitianize.AtNyquist(f.shape, j) ==> f.data[j] == Zero
    ensures Mirror(f.shape, idx) in f.data
    ensures Mul(f.data[Mirror(f.shape, idx)], IK(f, axis, Mirror(f.shape, idx)))
            == Conj(Mul(f.data[idx], IK(f, axis, idx)))
  {
    MirrorInBounds(f.shape, idx);
    var m := Mirror(f.shape, idx);
    var s := f.shape[axis];
    var x := f.data[idx];
    var k := Wavenumber(s, f.lengths[axis], idx[axis]);
    var km := Wavenumber(s, f.lengths[axis], m[axis]);
    assert IK(f, axis, idx) == Complex(0.0, k);
    assert IK(f, axis, m) == Complex(0.0, km);
    assert f.data[m] == Conj(x);
    if s % 2 == 0 && idx[axis] == s / 2 {
      NyquistAxisZero(f, axis, idx);
      MulZero(k);
      MulZero(km);
    } else {
      DerivOffNyquist(f, axis, idx);
    }
  }

  lemma DerivOffNyquist(f: Field, axis: nat, idx: Index)
    requires Valid(f) && axis < |f.shape| && idx in f.data && Hermitian(f.shape, f.data)
    requires !(f.shape[axis] % 2 == 0 && idx[axis] == f.shape[axis] / 2)
    ensures Mirror(f.shape, idx) in f.data
    ensures Mul(f.data[Mirror(f.shape, idx)], IK(f, axis, Mirror(f.shape, idx)))
            == Conj(Mul(f.data[idx], IK(f, axis, idx)))
  {
    MirrorInBounds(f.shape, idx);
    var m := Mirror(f.shape, idx);
    var s := f.shape[axis];
    var k := Wavenumber(s, f.lengths[axis], idx[axis]);
    WavenumberMirror(s, f.lengths[axis], idx[axis]);
    assert IK(f, axis, m) == Complex(0.0, -k);
    MulIKConj(f.data[idx], k);
  }

  lemma NyquistAxisZero(f: Field, axis: nat, idx: Index)
    requires Valid(f) && axis < |f.shape| && idx in f.data && Hermitian(f.shape, f.data)
    requires forall j :: j in f.data && Hermitianize.AtNyquist(f.shape, j) ==> f.data[j] == Zero
    requires f.shape[axis] % 2 == 0 && idx[axis] == f.shape[axis] / 2
    ensures Mirror(f.shape, idx) in f.data
    ensures f.data[idx] == Zero && f.data[Mirror(f.shape, idx)] == Zero
  {
    MirrorInBounds(f.shape, idx);
    assert Hermitianize.AtNyquistFrom(f.shape, idx, 0);
    MirrorCoordRange(f.shape[axis], idx[axis]);
    assert Mirror(f.shape, idx)[axis] == f.shape[axis] / 2;
    assert Hermitianize.AtNyquistFrom(f.shape, Mirror(f.shape, idx), 0);
  }

  /** The derivative of a real field is real: on a Hermitian spectral buffer
      whose Nyquist modes are zero, `deriv` returns a Hermitian array. */
  lemma DerivKeepsHermitian(dft: Dft, f: Field, dim: char)
    requires Valid(f) && f.tag == KSpace && Hermitian(f.shape, f.data)
    requires forall j :: j in f.data && Hermitianize.AtNyquist(f.shape, j) ==> f.data[j] == Zero
    requires LabelAxis(|f.shape|, dim).Ok?
    ensures Deriv(dft, f, dim).Ok? && Hermitian(f.shape, Deriv(dft, f, dim).value.1)
  {
    var axis := LabelAxis(|f.shape|, dim).value;
    var d := Deriv(dft, f, dim).value.1;
    forall idx | idx in d && |idx| == |f.shape|
      ensures Mirror(f.shape, idx) in d && d[Mirror(f.shape, idx)] == Conj(d[idx])
    {
      DerivEntryMirror(f, axis, idx);
    }
  }

  lemma WavenumberZero(s: nat, len: real, c: int)
    requires len > 0.0 && 0 <= c < s
    ensures Wavenumber(s, len, c) == 0.0 <==> c == 0
  {
    WavenumberClosedForm(s, len, c);
    var m := FreqIndex(s, c) as real;
    if c != 0 {
      assert m != 0.0;
      assert 2.0 * Pi * m != 0.0;
    }
  }

  lemma MulPositive(a: real, b: real)
    requires a > 0.0 && b > 0.0
    ensures a * b > 0.0
  {
  }

  lemma Square(w: real)
    ensures w * w >= 0.0
    ensures w != 0.0 ==> w * w > 0.0
    ensures w == 0.0 ==> w * w == 0.0
  {
    if w > 0.0 {
      MulPositive(w, w);
    } else if w < 0.0 {
      var v := -w;
      MulPositive(v, v);
      assert w * w == v * v;
    }
  }

  lemma KSquaredZero(shape: Shape, lengths: seq<real>, idx: Index, j: nat)
    requires InBounds(shape, idx) && |lengths| == |shape| && j < |shape|
    requires forall k :: 0 <= k < |lengths| ==> lengths[k] > 0.0
    ensures KSquared(shape, lengths, idx, j) >= 0.0
    ensures KSquared(shape, lengths, idx, j) == 0.0 <==> idx[j] == 0
  {
    var w := Wavenumber(shape[j], lengths[j], idx[j]);
    WavenumberZero(shape[j], lengths[j], idx[j]);
    Square(w);
  }

  /** The first `n` coordinates are 0. */
  predicate ZeroUpTo(idx: Index, n: nat)
    requires n <= |idx|
  {
    forall k :: 0 <= k < n ==> idx[k] == 0
  }

  lemma {:induction false} SumSquaresZero(shape: Shape, lengths: seq<real>, idx: Index, n: nat)
    requires InBounds(shape, idx) && |lengths| == |shape| && n <= |shape|
    requires forall k :: 0 <= k < |lengths| ==> lengths[k] > 0.0
    ensures SumSquares(shape, lengths, idx, n) >= 0.0
    ensures SumSquares(shape, lengths, idx, n) == 0.0 <==> ZeroUpTo(idx, n)
  {
    if n > 0 {
      SumSquaresZero(shape, lengths, idx, n - 1);
      KSquaredZero(shape, lengths, idx, n - 1);
      assert ZeroUpTo(idx, n) <==> ZeroUpTo(idx, n - 1) && idx[n - 1] == 0;
    }
  }

  /** For one to three axes `k2` vanishes only at the mean mode, and with
      `no_zero` it is 1 there and the plain `k2` everywhere else, so every
      entry is positive. */
  lemma K2Properties(f: Field)
    requires Valid(f) && |f.shape| <= 3
    ensures forall idx :: idx in f.data ==>
      && idx in K2(f, false) && idx in K2(f, true)
      && (K2(f, false)[idx] == 0.0 <==> forall k :: 0 <= k < |idx| ==> idx[k] == 0)
      && K2(f, true)[idx] > 0.0
      && K2(f, true)[idx] == (if K2(f, false)[idx] == 0.0 then 1.0 else K2(f, false)[idx])
  {
    LabelsOfSmallFields(|f.shape|);
    forall idx | idx in f.data
      ensures K2(f, false)[idx] >= 0.0
      ensures K2(f, false)[idx] == 0.0 <==> forall k :: 0 <= k < |idx| ==> idx[k] == 0
    {
      SumSquaresZero(f.shape, f.lengths, idx, |f.shape|);
      assert ZeroUpTo(idx, |f.shape|) <==> forall k :: 0 <= k < |idx| ==> idx[k] == 0;
    }
  }

  // ---------------------------------------------------------------------
  // The cleanups keep a real field real
  // ---------------------------------------------------------------------

  lemma MaskOutKeepsHermitian(shape: Shape, lengths: seq<real>, g: Grid)
    requires 2 <= |shape| <= 3 && WellFormed(shape, g) && Hermitian(shape, g) && |lengths| == |shape|
    requires forall k :: 0 <= k < |lengths| ==> lengths[k] > 0.0
    ensures MaskTerms(|shape|).Ok?
    ensures Hermitian(shape, MaskOut(shape, lengths, MaskTerms(|shape|).value, g))
  {
    MaskTermsOfSmallFields(|shape|);
    var r := MaskOut(shape, lengths, MaskTerms(|shape|).value, g);
    forall idx | idx in r && |idx| == |shape|
      ensures Mirror(shape, idx) in r && r[Mirror(shape, idx)] == Conj(r[idx])
    {
      MaskedMirror(shape, lengths, idx);
    }
  }

  lemma ZeroSmallKeepsHermitian(shape: Shape, g: Grid)
    requires WellFormed(shape, g) && Hermitian(shape, g)
    ensures Hermitian(shape, ZeroSmall(shape, g))
  {
    var r := ZeroSmall(shape, g);
    forall idx | idx in r && |idx| == |shape|
      ensures Mirror(shape, idx) in r && r[Mirror(shape, idx)] == Conj(r[idx])
    {
      ZeroSmallEntry(shape, g, idx);
    }
  }

  lemma ZeroSmallEntry(shape: Shape, g: Grid, idx: Index)
    requires WellFormed(shape, g) && Hermitian(shape, g) && idx in g
    ensures Mirror(shape, idx) in g
    ensures ZeroSmall(shape, g)[Mirror(shape, idx)] == Conj(ZeroSmall(shape, g)[idx])
  {
    var x := g[idx];
    var m := Mirror(shape, idx);
    assert g[m] == Conj(x);
    Norm2Conj(x);
    var r := ZeroSmall(shape, g);
    assert r[idx] == (if Small(x) then Zero else x);
    assert r[m] == (if Small(Conj(x)) then Zero else Conj(x));
  }

  lemma ZeroNyquistKeepsHermitian(shape: Shape, g: Grid)
    requires WellFormed(shape, g) && Hermitian(shape, g)
    requires forall k :: 0 <= k < |shape| ==> shape[k] % 2 == 0
    ensures Hermitian(shape, Hermitianize.ZeroNyquist(shape, g))
  {
    var r := Hermitianize.ZeroNyquist(shape, g);
    forall idx | idx in r && |idx| == |shape|
      ensures Mirror(shape, idx) in r && r[Mirror(shape, idx)] == Conj(r[idx])
    {
      ZeroNyquistEntry(shape, g, idx);
    }
  }

  lemma NyquistMirror(shape: Shape, idx: Index)
    requires InBounds(shape, idx)
    requires forall k :: 0 <= k < |shape| ==> shape[k] % 2 == 0
    ensures InBounds(shape, Mirror(shape, idx))
    ensures Hermitianize.AtNyquist(shape, Mirror(shape, idx)) <==> Hermitianize.AtNyquist(shape, idx)
  {
    MirrorInBounds(shape, idx);
    var m := Mirror(shape, idx);
    forall k | 0 <= k < |shape| ensures m[k] == shape[k] / 2 <==> idx[k] == shape[k] / 2 {
      MirrorCoordRange(shape[k], idx[k]);
    }
  }

  lemma ZeroNyquistEntry(shape: Shape, g: Grid, idx: Index)
    requires WellFormed(shape, g) && Hermitian(shape, g) && idx in g
    requires forall k :: 0 <= k < |shape| ==> shape[k] % 2 == 0
    ensures Mirror(shape, idx) in g
    ensures Hermitianize.ZeroNyquist(shape, g)[Mirror(shape, idx)] == Conj(Hermitianize.ZeroNyquist(shape, g)[idx])
  {
    NyquistMirror(shape, idx);
  }

  lemma OddAxisEntries(g: Grid)
    requires WellFormed([3], g)
    ensures [1] in g && [2] in g
    ensures [1] in Hermitianize.ZeroNyquist([3], g) && [2] in Hermitianize.ZeroNyquist([3], g)
    ensures Hermitianize.ZeroNyquist([3], g)[[1]] == Zero
    ensures Hermitianize.ZeroNyquist([3], g)[[2]] == g[[2]]
  {
    assert InBounds([3], [1]) && InBounds([3], [2]);
    assert [1][0] == [3][0] / 2;
    assert Hermitianize.AtNyquistFrom([3], [1], 0);
    assert !Hermitianize.AtNyquistFrom([3], [2], 0);
  }

  /** On an odd axis `S/2` is an ordinary mode whose mirror is `S/2 + 1`:
      for a real signal of length 3 that uses mode 1, zeroing it leaves its
      mirror partner 2 alone, so the pair is no longer conjugate. */
  lemma ZeroNyquistOddAxis(g: Grid)
    requires WellFormed([3], g) && Hermitian([3], g) && [1] in g && g[[1]] != Zero
    ensures var r := Hermitianize.ZeroNyquist([3], g);
      [1] in r && [2] in r && Mirror([3], [2]) == [1] && r[[1]] != Conj(r[[2]])
  {
    OddAxisEntries(g);
    MirrorsOfThree();
    assert g[[2]] == Conj(g[[1]]);
    ConjInvolutive(g[[1]]);
  }

  /** A concrete input for the lemma above: `[c0, c1, conj(c1)]` with real
      `c0` and nonzero `c1` is the spectrum of a real length-3 signal, and
      `zero_nyquist` breaks its symmetry. */
  lemma ZeroNyquistOddAxisExample(c0: real, c1: Complex)
    requires c1 != Zero
    ensures var g := map[[0] := Complex(c0, 0.0), [1] := c1, [2] := Conj(c1)];
      WellFormed([3], g) && Hermitian([3], g)
    ensures var r := Hermitianize.ZeroNyquist([3], map[[0] := Complex(c0, 0.0), [1] := c1, [2] := Conj(c1)]);
      [1] in r && [2] in r && r[[1]] != Conj(r[[2]])
  {
    var g := map[[0] := Complex(c0, 0.0), [1] := c1, [2] := Conj(c1)];
    forall idx: Index
      ensures idx in g <==> InBounds([3], idx)
    {
      if InBounds([3], idx) {
        assert idx == [idx[0]];
      }
    }
    MirrorsOfThree();
    ConjInvolutive(c1);
    assert Mirror([3], [0]) == [0];
    forall idx | idx in g && |idx| == 1
      ensures Mirror([3], idx) in g && g[Mirror([3], idx)] == Conj(g[idx])
    {
    }
    ZeroNyquistOddAxis(g);
  }

  lemma MirrorsOfThree()
    ensures Mirror([3], [1]) == [2] && Mirror([3], [2]) == [1]
  {
  }
}
