/** The argument checks and index bookkeeping of the `Physics` base class
    (physics.py:49-84, 141-159, 280-297): which representations a physics
    class accepts, the default box length, the slot layout of the Jacobian
    written by `gradX`, and the component-wise dot product `XdotY`. */
module PhysicsLayout {
  import opened Results
  import opened Complex
  import opened Grids
  import Wavenumbers
  import FourierField
  import FourierProofs

  // ---------------------------------------------------------------------
  // Physics.__init__
  // ---------------------------------------------------------------------

  /** The representation classes of the data layer. */
  datatype Representation = FourierRep | FourierShearRep

  /** `allowable_representations` of the base class (physics.py:49), of
      `IncompressibleHydro` (physics.py:352) and of
      `ShearIncompressibleHydro` (physics.py:432). */
  const BaseAllowable: seq<Representation> := []
  const HydroAllowable: seq<Representation> := [FourierRep]
  const ShearHydroAllowable: seq<Representation> := [FourierShearRep]

  /** The optional `length` argument: `None`, or a tuple of lengths. */
  datatype LengthArg = NoLength | Lengths(ls: seq<real>)

  /** Python truth of the argument: `None` and `()` are both false. */
  predicate Truthy(length: LengthArg) {
    length.Lengths? && |length.ls| > 0
  }

  /** The attributes `__init__` sets before building the field classes. */
  datatype Setup = Setup(shape: seq<int>, representation: Representation, length: seq<real>, ndim: nat)

  /** `Physics.__init__`: the representation must be one the class allows;
      a missing length becomes `2π` along every axis. A given length is
      kept as it is, whatever its arity. */
  function InitPhysics(allowable: seq<Representation>, shape: seq<int>, rep: Representation, length: LengthArg): (r: Result<Setup>)
    ensures r.Err? <==> rep !in allowable
    ensures r.Err? ==> r.error == ValueError
    ensures r.Ok? ==> r.value.shape == shape && r.value.representation == rep && r.value.ndim == |shape|
    ensures r.Ok? && Truthy(length) ==> r.value.length == length.ls
    ensures r.Ok? && !Truthy(length) ==>
      |r.value.length| == |shape| && forall k :: 0 <= k < |shape| ==> r.value.length[k] == 2.0 * Wavenumbers.Pi
  {
    if rep !in allowable then Err(ValueError)
    else
      var len := if Truthy(length) then length.ls else seq(|shape|, _ => 2.0 * Wavenumbers.Pi);
      Ok(Setup(shape, rep, len, |shape|))
  }

  /** The base class accepts no representation at all, and each hydro
      class accepts exactly its own. */
  lemma AllowableRepresentations(shape: seq<int>, rep: Representation, length: LengthArg)
    ensures InitPhysics(BaseAllowable, shape, rep, length) == Err(ValueError)
    ensures InitPhysics(HydroAllowable, shape, rep, length).Ok? <==> rep == FourierRep
    ensures InitPhysics(ShearHydroAllowable, shape, rep, length).Ok? <==> rep == FourierShearRep
  {
  }

  /** With the default box of side `2π` the wavenumbers along every axis
      are the integer frequency indices themselves. */
  lemma DefaultBoxIntegerWavenumbers(allowable: seq<Representation>, shape: seq<nat>, rep: Representation, axis: nat, c: int)
    requires InitPhysics(allowable, shape, rep, NoLength).Ok?
    requires axis < |shape| && 0 <= c < shape[axis]
    ensures InitPhysics(allowable, shape, rep, NoLength).value.length[axis] > 0.0
    ensures Wavenumbers.Wavenumber(shape[axis], InitPhysics(allowable, shape, rep, NoLength).value.length[axis], c)
            == Wavenumbers.FreqIndex(shape[axis], c) as real
  {
    var len := InitPhysics(allowable, shape, rep, NoLength).value.length[axis];
    Wavenumbers.WavenumberClosedForm(shape[axis], len, c);
  }

  // ---------------------------------------------------------------------
  // gradX: the Jacobian slot layout
  // ---------------------------------------------------------------------

  /** `_trans` of the hydro classes (physics.py:364, 479, 569): physical
      direction `j` to the label `deriv` takes. */
  function Trans(j: int): (r: Result<char>)
    ensures r.Ok? <==> 0 <= j < 3
    ensures r.Err? ==> r.error == KeyError
  {
    if j == 0 then Ok('x') else if j == 1 then Ok('y') else if j == 2 then Ok('z') else Err(KeyError)
  }

  /** The physics table is the collision-free direction table of the data
      layer, so distinct directions differentiate along distinct labels. */
  lemma TransInjective(i: int, j: int)
    ensures Trans(i) == Wavenumbers.TransAxisToLabelFixed(i)
    ensures Trans(i).Ok? && Trans(i) == Trans(j) ==> i == j
  {
  }

  /** Output slot of `dX_i/dx_j` in a Jacobian over `n` directions. */
  function Slot(n: nat, i: nat, j: nat): nat {
    n * i + j
  }

  /** `n·i + j` stays below `ncomp·n` and the two parts come back out by
      division and remainder. */
  lemma SlotBijection(ncomp: nat, n: nat, i: nat, j: nat)
    requires i < ncomp && j < n
    ensures Slot(n, i, j) < ncomp * n
    ensures Slot(n, i, j) / n == i && Slot(n, i, j) % n == j
  {
    MulStep(n, i, ncomp);
    DivModUnique(n, i, j, Slot(n, i, j));
  }

  /** Every slot below `ncomp·n` is the slot of one (component, direction). */
  lemma SlotOnto(ncomp: nat, n: nat, s: nat)
    requires s < ncomp * n
    ensures n > 0 && s / n < ncomp && s % n < n
    ensures Slot(n, s / n, s % n) == s
  {
    assert n > 0;
    var q := s / n;
    if q >= ncomp {
      MulStep(n, ncomp, q + 1);
    }
  }

  /** `n·a + n <= n·b` when `a < b`. */
  lemma {:induction false} MulStep(n: nat, a: nat, b: nat)
    requires a < b
    ensures n * a + n <= n * b
    decreases b - a
  {
    assert n * b == n * (b - 1) + n;
    if a < b - 1 {
      MulStep(n, a, b - 1);
    }
  }

  lemma DivModUnique(n: nat, i: nat, j: nat, s: nat)
    requires j < n && s == n * i + j
    ensures s / n == i && s % n == j
  {
    var q, r := s / n, s % n;
    assert s == n * q + r && r < n;
    if q > i {
      MulStep(n, i, q);
    } else if q < i {
      MulStep(n, q, i);
    }
  }

  /** What `gradX` stores: the derivative of one component along one label. */
  datatype Partial = Partial(component: nat, direction: char)

  /** `gradX(X, output)` for an `X` of `ncomp` components in `n` dimensions
      and an output of `outSize` components. It succeeds exactly when every
      slot exists and every direction has a label, and then slot `n·i + j`
      holds `dX_i/dx_j` and nothing else is written. */
  method GradX(ncomp: nat, n: nat, outSize: nat) returns (r: Result<map<nat, Partial>>)
    ensures r.Ok? <==> ncomp == 0 || n == 0 || (n <= 3 && ncomp * n <= outSize)
    ensures r.Err? ==> r.error == KeyError || r.error == IndexError
    ensures r.Ok? ==> forall s: nat :: s in r.value <==> s < ncomp * n
    ensures r.Ok? ==> forall i, j :: 0 <= i < ncomp && 0 <= j < n ==>
      Slot(n, i, j) in r.value && r.value[Slot(n, i, j)].component == i
      && Trans(j) == Ok(r.value[Slot(n, i, j)].direction)
    ensures r.Ok? ==> forall s :: s in r.value ==>
      r.value[s].component == s / n && Trans(s % n) == Ok(r.value[s].direction)
  {
    var out: map<nat, Partial> := map[];
    var next: nat := 0;
    var i := 0;
    while i < ncomp
      invariant 0 <= i <= ncomp
      invariant next == n * i
      invariant i > 0 && n > 0 ==> n <= 3 && next <= outSize
      invariant forall s: nat :: s in out <==> s < next
      invariant forall i', j' :: 0 <= i' < i && 0 <= j' < n ==>
        Slot(n, i', j') in out && out[Slot(n, i', j')].component == i'
        && Trans(j') == Ok(out[Slot(n, i', j')].direction)
    {
      var j := 0;
      while j < n
        invariant 0 <= j <= n
        invariant next == n * i + j
        invariant j > 0 ==> j <= 3 && next <= outSize
        invariant i > 0 && n > 0 ==> n <= 3
        invariant forall s: nat :: s in out <==> s < next
        invariant forall i', j' :: ((0 <= i' < i && 0 <= j' < n) || (i' == i && 0 <= j' < j)) ==>
          Slot(n, i', j') in out && out[Slot(n, i', j')].component == i'
          && Trans(j') == Ok(out[Slot(n, i', j')].direction)
      {
        SlotBijection(ncomp, n, i, j);
        var dir :- Trans(j);
        if next >= outSize {
          return Err(IndexError);
        }
        out := out[next := Partial(i, dir)];
        next := next + 1;
        j := j + 1;
      }
      assert next == n * (i + 1);
      i := i + 1;
    }
    assert next == ncomp * n;
    JacobianDecodes(ncomp, n, out);
    return Ok(out);
  }

  /** A map laid out slot by slot can be read back by division and
      remainder. */
  lemma JacobianDecodes(ncomp: nat, n: nat, m: map<nat, Partial>)
    requires forall s: nat :: s in m <==> s < ncomp * n
    requires forall i, j :: 0 <= i < ncomp && 0 <= j < n ==>
      Slot(n, i, j) in m && m[Slot(n, i, j)].component == i && Trans(j) == Ok(m[Slot(n, i, j)].direction)
    ensures forall s :: s in m ==> m[s].component == s / n && Trans(s % n) == Ok(m[s].direction)
  {
    forall s | s in m
      ensures m[s].component == s / n && Trans(s % n) == Ok(m[s].direction)
    {
      SlotOnto(ncomp, n, s);
    }
  }

  // ---------------------------------------------------------------------
  // XdotY
  // ---------------------------------------------------------------------

  /** The first `k` components of both vectors hold an entry at `idx`. */
  predicate Covers(xs: seq<Grid>, ys: seq<Grid>, idx: Index, k: nat) {
    k <= |xs| && k <= |ys| && forall c :: 0 <= c < k ==> idx in xs[c] && idx in ys[c]
  }

  /** `X_0·Y_0 + … + X_{k-1}·Y_{k-1}` at one index, summed in component order. */
  function DotAt(xs: seq<Grid>, ys: seq<Grid>, idx: Index, k: nat): Complex
    requires Covers(xs, ys, idx, k)
  {
    if k == 0 then Zero
    else Add(DotAt(xs, ys, idx, k - 1), Mul(xs[k - 1][idx], ys[k - 1][idx]))
  }

  /** The dot product does not depend on the order of its arguments. */
  lemma {:induction false} DotSymmetric(xs: seq<Grid>, ys: seq<Grid>, idx: Index, k: nat)
    requires Covers(xs, ys, idx, k)
    ensures DotAt(xs, ys, idx, k) == DotAt(ys, xs, idx, k)
  {
    if k > 0 {
      DotSymmetric(xs, ys, idx, k - 1);
      MulCommutes(xs[k - 1][idx], ys[k - 1][idx]);
    }
  }

  lemma MulCommutes(a: Complex, b: Complex)
    ensures Mul(a, b) == Mul(b, a)
  {
  }

  /** On real data (x space) the dot product is real and is the plain sum
      of products of the real parts. */
  lemma {:induction false} DotOfReal(xs: seq<Grid>, ys: seq<Grid>, idx: Index, k: nat)
    requires Covers(xs, ys, idx, k)
    requires forall c :: 0 <= c < k ==> IsReal(xs[c][idx]) && IsReal(ys[c][idx])
    ensures IsReal(DotAt(xs, ys, idx, k))
    ensures DotAt(xs, ys, idx, k).re == RealDot(xs, ys, idx, k)
  {
    if k > 0 {
      DotOfReal(xs, ys, idx, k - 1);
    }
  }

  function RealDot(xs: seq<Grid>, ys: seq<Grid>, idx: Index, k: nat): real
    requires Covers(xs, ys, idx, k)
  {
    if k == 0 then 0.0
    else RealDot(xs, ys, idx, k - 1) + xs[k - 1][idx].re * ys[k - 1][idx].re
  }

  /** `XdotY(X, Y, output, space)` on the components already read in
      `space`: unequal component counts raise `ValueError`; otherwise the
      output is zeroed and every component product is added in. */
  method XdotY(shape: Shape, xs: seq<Grid>, ys: seq<Grid>) returns (r: Result<Grid>)
    requires forall c :: 0 <= c < |xs| ==> WellFormed(shape, xs[c])
    requires forall c :: 0 <= c < |ys| ==> WellFormed(shape, ys[c])
    ensures r.Err? <==> |xs| != |ys|
    ensures r.Err? ==> r.error == ValueError
    ensures r.Ok? ==> WellFormed(shape, r.value)
    ensures r.Ok? ==> forall idx :: idx in r.value ==>
      Covers(xs, ys, idx, |xs|) && r.value[idx] == DotAt(xs, ys, idx, |xs|)
  {
    if |xs| != |ys| {
      return Err(ValueError);
    }
    var out := Filled(shape, Zero);
    for k := 0 to |xs|
      invariant WellFormed(shape, out)
      invariant forall idx :: idx in out ==> Covers(xs, ys, idx, k) && out[idx] == DotAt(xs, ys, idx, k)
    {
      out := map idx | idx in out :: Add(out[idx], Mul(xs[k][idx], ys[k][idx]));
    }
    return Ok(out);
  }

  // ---------------------------------------------------------------------
  // XdotY written back through the output field
  // ---------------------------------------------------------------------

  /** `X[i][space] * Y[i][space]` entry by entry. */
  function Product(shape: Shape, x: Grid, y: Grid): (r: Grid)
    requires WellFormed(shape, x) && WellFormed(shape, y)
    ensures WellFormed(shape, r)
    ensures forall idx :: idx in r ==> r[idx] == Mul(x[idx], y[idx])
  {
    map idx | idx in x :: Mul(x[idx], y[idx])
  }

  /** Writing a buffer of the field's own shape back copies it unchanged
      (`self.data[:] = data[slice(S)...]`). */
  lemma SameShapeWriteBack(f: FourierField.Field, d: Grid)
    requires FourierField.Valid(f) && WellFormed(f.shape, d)
    ensures FourierField.CopyIn(f.shape, f.data, f.shape, d) == Ok(d)
  {
    FourierProofs.CopyInCornerReadBack(f.shape, f.data, f.shape, d);
    MapsEqual(f.shape, FourierField.CopyIn(f.shape, f.data, f.shape, d).value, d);
  }

  /** One pass of `output[space] += term` on a field whose `__getitem__` and
      `__setitem__` are the representation's: read the buffer (transforming
      if `space` is the other space), add `term` into it in place, and
      write it back under the tag `space`, which dealiases when that is on. */
  function AccumulateInto(dft: FourierField.Dft, out: FourierField.Field, space: string, term: Grid)
    : (r: Result<FourierField.Field>)
    requires FourierField.Valid(out) && WellFormed(out.shape, term)
    ensures r.Ok? ==> FourierField.Valid(r.value) && FourierField.SameLayout(out, r.value)
    ensures r.Ok? ==> r.value.tag == (if out.dealias then FourierField.KSpace else space)
    ensures space != out.tag && space != FourierField.XSpace && space != FourierField.KSpace ==>
      r == Err(KeyError)
  {
    var g :- FourierField.Get(dft, space, out);
    var sum := map idx | idx in g.data :: Add(g.data[idx], term[idx]);
    FourierField.Set(dft, g, space, g.shape, sum)
  }

  /** `idx` is zeroed by the 2/3 rule of `f`'s layout. */
  predicate DealiasedAt(f: FourierField.Field, idx: Index)
    requires FourierField.Valid(f) && InBounds(f.shape, idx) && Wavenumbers.MaskTerms(|f.shape|).Ok?
  {
    Wavenumbers.Masked(f.shape, f.lengths, Wavenumbers.MaskTerms(|f.shape|).value, idx)
  }

  /** Without dealiasing, a pass on a field already in `space` is a plain
      entrywise sum. */
  lemma AccumulatePlain(dft: FourierField.Dft, out: FourierField.Field, space: string, term: Grid)
    requires FourierField.Valid(out) && WellFormed(out.shape, term)
    requires !out.dealias && out.tag == space
    ensures AccumulateInto(dft, out, space, term).Ok?
    ensures var r := AccumulateInto(dft, out, space, term).value;
      forall idx :: idx in r.data ==> idx in out.data && r.data[idx] == Add(out.data[idx], term[idx])
  {
    var sum := map idx | idx in out.data :: Add(out.data[idx], term[idx]);
    SameShapeWriteBack(out, sum);
  }

  /** With dealiasing on, a pass in spectral space masks the running sum:
      it fails exactly when the mask cannot be built. */
  lemma AccumulateMasked(dft: FourierField.Dft, out: FourierField.Field, term: Grid)
    requires FourierField.Valid(out) && WellFormed(out.shape, term)
    requires out.dealias && out.tag == FourierField.KSpace
    ensures AccumulateInto(dft, out, FourierField.KSpace, term).Ok? <==> Wavenumbers.MaskTerms(|out.shape|).Ok?
    ensures AccumulateInto(dft, out, FourierField.KSpace, term).Err? ==>
      AccumulateInto(dft, out, FourierField.KSpace, term) == Err(KeyError)
    ensures var r := AccumulateInto(dft, out, FourierField.KSpace, term);
      r.Ok? ==> forall idx :: idx in r.value.data ==>
        idx in out.data && r.value.data[idx] == (if DealiasedAt(out, idx) then Zero else Add(out.data[idx], term[idx]))
  {
    var sum := map idx | idx in out.data :: Add(out.data[idx], term[idx]);
    SameShapeWriteBack(out, sum);
    var f' := out.(data := sum, tag := FourierField.KSpace);
    FourierProofs.CleanupsInKSpace(dft, f');
  }

  /** `g` holds the dot product of the first `k` components. */
  predicate HoldsDot(xs: seq<Grid>, ys: seq<Grid>, g: Grid, k: nat) {
    forall idx :: idx in g ==> Covers(xs, ys, idx, k) && g[idx] == DotAt(xs, ys, idx, k)
  }

  /** `g` holds the dot product of the first `k` components, zero wherever
      `f`'s 2/3 rule masks. */
  predicate HoldsMaskedDot(f: FourierField.Field, xs: seq<Grid>, ys: seq<Grid>, g: Grid, k: nat)
    requires FourierField.Valid(f) && Wavenumbers.MaskTerms(|f.shape|).Ok? && WellFormed(f.shape, g)
  {
    forall idx :: idx in g ==>
      Covers(xs, ys, idx, k) && g[idx] == (if DealiasedAt(f, idx) then Zero else DotAt(xs, ys, idx, k))
  }

  /** A zero buffer holds the empty dot product, masked or not. */
  lemma ZeroHoldsDot(f: FourierField.Field, xs: seq<Grid>, ys: seq<Grid>)
    requires FourierField.Valid(f)
    ensures HoldsDot(xs, ys, Filled(f.shape, Zero), 0)
    ensures Wavenumbers.MaskTerms(|f.shape|).Ok? ==> HoldsMaskedDot(f, xs, ys, Filled(f.shape, Zero), 0)
  {
  }

  /** One plain pass adds component `k`. */
  lemma StepPlain(dft: FourierField.Dft, out: FourierField.Field, space: string,
                  xs: seq<Grid>, ys: seq<Grid>, k: nat)
    requires FourierField.Valid(out) && k < |xs| && k < |ys|
    requires WellFormed(out.shape, xs[k]) && WellFormed(out.shape, ys[k])
    requires !out.dealias && out.tag == space && HoldsDot(xs, ys, out.data, k)
    ensures AccumulateInto(dft, out, space, Product(out.shape, xs[k], ys[k])).Ok?
    ensures HoldsDot(xs, ys, AccumulateInto(dft, out, space, Product(out.shape, xs[k], ys[k])).value.data, k + 1)
  {
    var term := Product(out.shape, xs[k], ys[k]);
    AccumulatePlain(dft, out, space, term);
    var r := AccumulateInto(dft, out, space, term).value;
    forall idx | idx in r.data
      ensures Covers(xs, ys, idx, k + 1) && r.data[idx] == DotAt(xs, ys, idx, k + 1)
    {
      assert idx in out.data && InBounds(out.shape, idx);
      assert idx in xs[k] && idx in ys[k];
      assert r.data[idx] == Add(out.data[idx], term[idx]);
    }
  }

  /** One dealiased spectral pass adds component `k` and masks; `f` is any
      field of the same layout, whose mask is the same. */
  lemma StepMasked(dft: FourierField.Dft, f: FourierField.Field, out: FourierField.Field,
                   xs: seq<Grid>, ys: seq<Grid>, k: nat)
    requires FourierField.Valid(f) && FourierField.Valid(out) && k < |xs| && k < |ys|
    requires out.shape == f.shape && out.lengths == f.lengths
    requires WellFormed(out.shape, xs[k]) && WellFormed(out.shape, ys[k])
    requires out.dealias && out.tag == FourierField.KSpace && Wavenumbers.MaskTerms(|out.shape|).Ok?
    requires HoldsMaskedDot(f, xs, ys, out.data, k)
    ensures AccumulateInto(dft, out, FourierField.KSpace, Product(out.shape, xs[k], ys[k])).Ok?
    ensures var r := AccumulateInto(dft, out, FourierField.KSpace, Product(out.shape, xs[k], ys[k])).value;
      FourierField.Valid(r) && r.shape == out.shape && HoldsMaskedDot(f, xs, ys, r.data, k + 1)
  {
    var term := Product(out.shape, xs[k], ys[k]);
    AccumulateMasked(dft, out, term);
    var r := AccumulateInto(dft, out, FourierField.KSpace, term).value;
    assert forall idx :: idx in r.data ==>
      idx in out.data && InBounds(f.shape, idx)
      && r.data[idx] == (if DealiasedAt(f, idx) then Zero else Add(out.data[idx], term[idx]));
    MaskedSumStep(f, xs, ys, k, out.data, r.data, term);
  }

  /** Adding component `k` and masking extends a masked partial sum. */
  lemma MaskedSumStep(f: FourierField.Field, xs: seq<Grid>, ys: seq<Grid>, k: nat, before: Grid, after: Grid, term: Grid)
    requires FourierField.Valid(f) && Wavenumbers.MaskTerms(|f.shape|).Ok? && k < |xs| && k < |ys|
    requires WellFormed(f.shape, xs[k]) && WellFormed(f.shape, ys[k]) && term == Product(f.shape, xs[k], ys[k])
    requires WellFormed(f.shape, before) && WellFormed(f.shape, after)
    requires HoldsMaskedDot(f, xs, ys, before, k)
    requires forall idx :: idx in after ==>
      idx in before && InBounds(f.shape, idx)
      && after[idx] == (if DealiasedAt(f, idx) then Zero else Add(before[idx], term[idx]))
    ensures HoldsMaskedDot(f, xs, ys, after, k + 1)
  {
    forall idx | idx in after
      ensures Covers(xs, ys, idx, k + 1)
      ensures after[idx] == (if DealiasedAt(f, idx) then Zero else DotAt(xs, ys, idx, k + 1))
    {
      assert idx in xs[k] && idx in ys[k];
    }
  }

  /** A dealiased spectral pass fails exactly when the mask cannot be built. */
  lemma StepMaskedFails(dft: FourierField.Dft, out: FourierField.Field, term: Grid)
    requires FourierField.Valid(out) && WellFormed(out.shape, term)
    requires out.dealias && out.tag == FourierField.KSpace && Wavenumbers.MaskTerms(|out.shape|).Err?
    ensures AccumulateInto(dft, out, FourierField.KSpace, term) == Err(KeyError)
  {
    AccumulateMasked(dft, out, term);
  }

  /** What `k` passes of `XdotY` have established about the running output
      `out` of the field `output`. */
  ghost predicate Progress(output: FourierField.Field, space: string, xs: seq<Grid>, ys: seq<Grid>,
                           out: FourierField.Field, k: nat)
  {
    FourierField.Valid(output) && FourierField.Valid(out) && FourierField.SameLayout(output, out)
    && k <= |xs| && k <= |ys|
    && (k == 0 ==> out.tag == output.tag)
    && (k > 0 ==> out.tag == (if output.dealias then FourierField.KSpace else space))
    && (k > 0 ==> space == output.tag || space == FourierField.XSpace || space == FourierField.KSpace)
    && (output.dealias && output.tag == FourierField.KSpace && space == FourierField.KSpace && k > 0 ==>
          Wavenumbers.MaskTerms(|output.shape|).Ok?)
    && (!output.dealias && output.tag == space ==> HoldsDot(xs, ys, out.data, k))
    && ((output.dealias && output.tag == FourierField.KSpace && space == FourierField.KSpace
         && Wavenumbers.MaskTerms(|output.shape|).Ok?) ==> HoldsMaskedDot(output, xs, ys, out.data, k))
  }

  /** The passes `k, k+1, …` of `output[space] += X[i][space] * Y[i][space]`,
      starting from the running output `out`; the first failing pass ends
      the loop with its exception. */
  function Passes(dft: FourierField.Dft, out: FourierField.Field, space: string,
                  xs: seq<Grid>, ys: seq<Grid>, k: nat): (r: Result<FourierField.Field>)
    requires FourierField.Valid(out) && k <= |xs| && k <= |ys|
    requires forall c :: 0 <= c < |xs| ==> WellFormed(out.shape, xs[c])
    requires forall c :: 0 <= c < |ys| ==> WellFormed(out.shape, ys[c])
    ensures r.Ok? ==> FourierField.Valid(r.value) && FourierField.SameLayout(out, r.value)
    decreases |xs| - k
  {
    if k == |xs| || k == |ys| then Ok(out)
    else
      var next :- AccumulateInto(dft, out, space, Product(out.shape, xs[k], ys[k]));
      Passes(dft, next, space, xs, ys, k + 1)
  }

  /** `XdotY(X, Y, output, space)` with the output written back through the
      representation, one component at a time.  `output.zero()` is taken to
      fill the buffer with zeros and keep the tag; the components are the
      arrays `X[i][space]` and `Y[i][space]` already read. */
  function XdotYInto(dft: FourierField.Dft, output: FourierField.Field, space: string,
                     xs: seq<Grid>, ys: seq<Grid>): (r: Result<FourierField.Field>)
    requires FourierField.Valid(output)
    requires forall c :: 0 <= c < |xs| ==> WellFormed(output.shape, xs[c])
    requires forall c :: 0 <= c < |ys| ==> WellFormed(output.shape, ys[c])
    ensures r.Ok? ==> FourierField.Valid(r.value) && FourierField.SameLayout(output, r.value)
  {
    if |xs| != |ys| then Err(ValueError)
    else Passes(dft, output.(data := Filled(output.shape, Zero)), space, xs, ys, 0)
  }

  /** One pass extends the progress of `k` passes to `k + 1`, or fails as
      the first pass can: `KeyError` for a space that is neither the tag nor
      a known one, `KeyError` from the mask when dealiasing cannot build it. */
  lemma PassFacts(dft: FourierField.Dft, output: FourierField.Field, out: FourierField.Field, space: string,
                  xs: seq<Grid>, ys: seq<Grid>, k: nat)
    requires Progress(output, space, xs, ys, out, k) && k < |xs| && k < |ys|
    requires WellFormed(output.shape, xs[k]) && WellFormed(output.shape, ys[k])
    ensures var next := AccumulateInto(dft, out, space, Product(out.shape, xs[k], ys[k]));
      (next.Ok? ==> Progress(output, space, xs, ys, next.value, k + 1))
      && (space != out.tag && space != FourierField.XSpace && space != FourierField.KSpace ==> next == Err(KeyError))
      && (!output.dealias && output.tag == space ==> next.Ok?)
      && (output.dealias && output.tag == FourierField.KSpace && space == FourierField.KSpace ==>
            (next.Ok? <==> Wavenumbers.MaskTerms(|output.shape|).Ok?))
  {
    var term := Product(out.shape, xs[k], ys[k]);
    if !output.dealias && output.tag == space {
      StepPlain(dft, out, space, xs, ys, k);
    }
    if output.dealias && output.tag == FourierField.KSpace && space == FourierField.KSpace {
      if Wavenumbers.MaskTerms(|output.shape|).Ok? {
        StepMasked(dft, output, out, xs, ys, k);
      } else {
        StepMaskedFails(dft, out, term);
      }
    }
  }

  /** `Passes` runs one pass and then the rest, or stops at a failing pass. */
  lemma PassesUnfold(dft: FourierField.Dft, out: FourierField.Field, space: string,
                     xs: seq<Grid>, ys: seq<Grid>, k: nat)
    requires FourierField.Valid(out) && k < |xs| && k < |ys|
    requires forall c :: 0 <= c < |xs| ==> WellFormed(out.shape, xs[c])
    requires forall c :: 0 <= c < |ys| ==> WellFormed(out.shape, ys[c])
    ensures var next := AccumulateInto(dft, out, space, Product(out.shape, xs[k], ys[k]));
      next.Ok? ==> (next.value.shape == out.shape
                    && Passes(dft, out, space, xs, ys, k) == Passes(dft, next.value, space, xs, ys, k + 1))
    ensures var next := AccumulateInto(dft, out, space, Product(out.shape, xs[k], ys[k]));
      next.Err? ==> Passes(dft, out, space, xs, ys, k) == Err(next.error)
  {
  }

  /** The remaining passes, whose outcome is `r`, keep the progress to the end. */
  lemma {:induction false} PassesProgress(dft: FourierField.Dft, output: FourierField.Field, out: FourierField.Field,
                                          space: string, xs: seq<Grid>, ys: seq<Grid>, k: nat,
                                          r: Result<FourierField.Field>)
    requires Progress(output, space, xs, ys, out, k) && |xs| == |ys|
    requires forall c :: 0 <= c < |xs| ==> WellFormed(output.shape, xs[c])
    requires forall c :: 0 <= c < |ys| ==> WellFormed(output.shape, ys[c])
    requires r == Passes(dft, out, space, xs, ys, k)
    ensures r.Ok? ==> Progress(output, space, xs, ys, r.value, |xs|)
    ensures !output.dealias && output.tag == space ==> r.Ok?
    decreases |xs| - k
  {
    if k < |xs| {
      PassFacts(dft, output, out, space, xs, ys, k);
      PassesUnfold(dft, out, space, xs, ys, k);
      var next := AccumulateInto(dft, out, space, Product(out.shape, xs[k], ys[k]));
      if next.Ok? {
        PassesProgress(dft, output, next.value, space, xs, ys, k + 1, r);
      }
    }
  }

  /** With dealiasing in spectral space the passes, whose outcome is `r`,
      fail exactly when the mask cannot be built. */
  lemma {:induction false} PassesMaskedIff(dft: FourierField.Dft, output: FourierField.Field, out: FourierField.Field,
                                           xs: seq<Grid>, ys: seq<Grid>, k: nat, r: Result<FourierField.Field>)
    requires Progress(output, FourierField.KSpace, xs, ys, out, k) && |xs| == |ys| && k < |xs|
    requires output.dealias && output.tag == FourierField.KSpace
    requires forall c :: 0 <= c < |xs| ==> WellFormed(output.shape, xs[c])
    requires forall c :: 0 <= c < |ys| ==> WellFormed(output.shape, ys[c])
    requires r == Passes(dft, out, FourierField.KSpace, xs, ys, k)
    ensures r.Ok? <==> Wavenumbers.MaskTerms(|output.shape|).Ok?
    decreases |xs| - k
  {
    PassFacts(dft, output, out, FourierField.KSpace, xs, ys, k);
    PassesUnfold(dft, out, FourierField.KSpace, xs, ys, k);
    var next := AccumulateInto(dft, out, FourierField.KSpace, Product(out.shape, xs[k], ys[k]));
    if next.Ok? && k + 1 < |xs| {
      PassesMaskedIff(dft, output, next.value, xs, ys, k + 1, r);
    }
  }

  /** What `XdotY` leaves in its output.  Unequal component counts raise
      `ValueError`.  Without dealiasing, from an output already in `space`,
      the result is the plain dot product in `space`.  With dealiasing in
      spectral space every pass masks the running sum, which leaves the
      masked dot product, and the call fails exactly when the mask cannot be
      built.  With dealiasing on the output ends in spectral space whatever
      `space` was, and a space that is neither known nor the current tag
      raises `KeyError` on the first pass. */
  lemma XdotYWriteBack(dft: FourierField.Dft, output: FourierField.Field, space: string, xs: seq<Grid>, ys: seq<Grid>)
    requires FourierField.Valid(output)
    requires forall c :: 0 <= c < |xs| ==> WellFormed(output.shape, xs[c])
    requires forall c :: 0 <= c < |ys| ==> WellFormed(output.shape, ys[c])
    ensures var r := XdotYInto(dft, output, space, xs, ys);
      (|xs| != |ys| ==> r == Err(ValueError))
      && (r.Ok? && |xs| > 0 ==> r.value.tag == (if output.dealias then FourierField.KSpace else space))
      && ((|xs| == |ys| && |xs| > 0 && space != output.tag
           && space != FourierField.XSpace && space != FourierField.KSpace) ==> r == Err(KeyError))
      && (|xs| == |ys| && !output.dealias && output.tag == space ==>
            r.Ok? && HoldsDot(xs, ys, r.value.data, |xs|))
      && ((|xs| == |ys| && |xs| > 0 && output.dealias && output.tag == FourierField.KSpace
           && space == FourierField.KSpace) ==>
            (r.Ok? <==> Wavenumbers.MaskTerms(|output.shape|).Ok?)
            && (r.Ok? ==> HoldsMaskedDot(output, xs, ys, r.value.data, |xs|)))
  {
    if |xs| == |ys| {
      var out := output.(data := Filled(output.shape, Zero));
      ZeroHoldsDot(output, xs, ys);
      assert Progress(output, space, xs, ys, out, 0);
      var r := Passes(dft, out, space, xs, ys, 0);
      PassesProgress(dft, output, out, space, xs, ys, 0, r);
      if |xs| > 0 {
        PassFacts(dft, output, out, space, xs, ys, 0);
        PassesUnfold(dft, out, space, xs, ys, 0);
        if output.dealias && output.tag == FourierField.KSpace && space == FourierField.KSpace {
          PassesMaskedIff(dft, output, out, xs, ys, 0, r);
        }
      }
    }
  }
}
