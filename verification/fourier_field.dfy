/** `FourierRepresentation` (fourier_data.py:36-207): one data buffer, a space
    tag, a transform strategy and the cleanup rules applied in spectral
    space.  The transforms themselves are a parameter (`Dft`): the model says
    what is done with their output, not what they compute. */
module FourierField {
  import opened Complex
  import opened Grids
  import opened Results
  import opened Wavenumbers
  import Hermitianize

  const XSpace: string := "xspace"
  const KSpace: string := "kspace"

  /** `finfo(complex128).eps`, 2^-52. */
  const Eps: real := 1.0 / 4503599627370496.0

  /** `abs(z) < eps`, compared through the squared modulus. */
  predicate Small(z: Complex) {
    Norm2(z) < Eps * Eps
  }

  /** The bound `fft`/`ifft` pair; `set_fft` binds nothing for any other
      method name, and the first transform then fails. */
  datatype Method = Fftw | Numpy | NoMethod

  /** Unnormalised forward and backward DFTs, entry by entry: `forward(g, idx)`
      is entry `idx` of the transform of `g`.  fftw's plans compute exactly
      these; numpy's `fftn` is `forward` and `ifftn` is `backward / size`. */
  datatype Dft = Dft(forward: (Grid, Index) -> Complex, backward: (Grid, Index) -> Complex)

  /** The state of one representation.  `storage` names the buffer the
      data lives in: an assignment to `self.data` makes a new one. */
  datatype Field = Field(shape: Shape, lengths: seq<real>, data: Grid, tag: string,
                         storage: nat, strategy: Method, dealias: bool)

  ghost predicate Valid(f: Field) {
    |f.shape| >= 1 && PositiveShape(f.shape) && |f.lengths| == |f.shape|
    && (forall k :: 0 <= k < |f.lengths| ==> f.lengths[k] > 0.0)
    && WellFormed(f.shape, f.data)
  }

  /** Everything but the data, the tag and the buffer is fixed for the life
      of a representation. */
  predicate SameLayout(f: Field, g: Field) {
    g.shape == f.shape && g.lengths == f.lengths && g.strategy == f.strategy && g.dealias == f.dealias
  }

  function MethodOf(name: string): (m: Method)
    ensures m == Fftw <==> name == "fftw"
    ensures m == Numpy <==> name == "numpy"
  {
    if name == "fftw" then Fftw else if name == "numpy" then Numpy else NoMethod
  }

  /** `__init__`: a zero buffer of the given shape in spectral space. */
  function Construct(shape: Shape, lengths: seq<real>, methodName: string, dealiasing: string): (f: Field)
    requires |shape| >= 1 && PositiveShape(shape) && |lengths| == |shape|
    requires forall k :: 0 <= k < |lengths| ==> lengths[k] > 0.0
    ensures Valid(f) && f.shape == shape && f.lengths == lengths
    ensures forall idx :: InBounds(shape, idx) ==> idx in f.data && f.data[idx] == Zero
    ensures f.tag == KSpace
    ensures f.strategy == Fftw <==> methodName == "fftw"
    ensures f.strategy == Numpy <==> methodName == "numpy"
    ensures f.dealias <==> dealiasing == "2/3"
  {
    Field(shape, lengths, Filled(shape, Zero), KSpace, 0, MethodOf(methodName), dealiasing == "2/3")
  }

  /** `1 / data.size`. */
  function InvSize(shape: Shape): (r: real)
    requires PositiveShape(shape)
    ensures r > 0.0 && r * (Size(shape) as real) == 1.0
  {
    SizePositive(shape);
    1.0 / (Size(shape) as real)
  }

  /** `self.fft()`: `fwd_fftw` scales the plan's output by `1/size` in
      place; `fwd_np` rebinds `self.data` to `fftn`'s result. */
  function Fft(dft: Dft, f: Field): (r: Result<Field>)
    requires Valid(f)
    ensures r.Ok? <==> f.strategy != NoMethod
    ensures r.Ok? ==> Valid(r.value) && SameLayout(f, r.value) && r.value.tag == f.tag
    ensures r.Ok? ==> r.value.data.Keys == f.data.Keys
  {
    match f.strategy
    case Fftw =>
      Ok(f.(data := map idx | idx in f.data :: Scale(InvSize(f.shape), dft.forward(f.data, idx))))
    case Numpy =>
      Ok(f.(data := map idx | idx in f.data :: dft.forward(f.data, idx), storage := f.storage + 1))
    case NoMethod => Err(AttributeError)
  }

  /** `self.ifft()`: `rev_fftw` runs the plan in place, `rev_np` rebinds to
      `ifftn`'s result; both then set every imaginary part to 0. */
  function Ifft(dft: Dft, f: Field): (r: Result<Field>)
    requires Valid(f)
    ensures r.Ok? <==> f.strategy != NoMethod
    ensures r.Ok? ==> Valid(r.value) && SameLayout(f, r.value) && r.value.tag == f.tag
    ensures r.Ok? ==> forall idx :: idx in r.value.data ==> IsReal(r.value.data[idx])
  {
    match f.strategy
    case Fftw =>
      Ok(f.(data := map idx | idx in f.data :: RealPart(dft.backward(f.data, idx))))
    case Numpy =>
      Ok(f.(data := map idx | idx in f.data :: RealPart(Scale(InvSize(f.shape), dft.backward(f.data, idx))),
            storage := f.storage + 1))
    case NoMethod => Err(AttributeError)
  }

  /** `self.data[dmask] = 0.` */
  function MaskOut(shape: Shape, lengths: seq<real>, terms: seq<Term>, g: Grid): (r: Grid)
    requires WellFormed(shape, g) && |lengths| == |shape|
    requires forall k :: 0 <= k < |lengths| ==> lengths[k] > 0.0
    requires forall t :: t in terms ==> t.axis < |shape| && t.nyAxis < |shape|
    ensures WellFormed(shape, r)
  {
    map idx | idx in g :: if Masked(shape, lengths, terms, idx) then Zero else g[idx]
  }

  /** `self.data[abs(self.data) < eps] = 0.` */
  function ZeroSmall(shape: Shape, g: Grid): (r: Grid)
    requires WellFormed(shape, g)
    ensures WellFormed(shape, r)
  {
    map idx | idx in g :: if Small(g[idx]) then Zero else g[idx]
  }

  /** `self['kspace']` (see `Get`): nothing when already in spectral space,
      a full `forward` otherwise. */
  function ToKSpace(dft: Dft, f: Field): (r: Result<Field>)
    requires Valid(f)
    ensures r.Ok? ==> Valid(r.value) && SameLayout(f, r.value) && r.value.tag == KSpace
    decreases if f.tag == KSpace then 0 else 3
  {
    if f.tag == KSpace then Ok(f) else Forward(dft, f)
  }

  /** `forward`: transform, tag, then the three cleanups in order. */
  function Forward(dft: Dft, f: Field): (r: Result<Field>)
    requires Valid(f)
    ensures r.Ok? ==> Valid(r.value) && SameLayout(f, r.value) && r.value.tag == KSpace
    decreases 2
  {
    var g :- Fft(dft, f);
    var g := g.(tag := KSpace);
    var g :- if g.dealias then Dealias23(dft, g) else Ok(g);
    var g :- ZeroNyquist(dft, g);
    ZeroUnderEps(dft, g)
  }

  /** `dealias_23`: the mask is built first (a missing label raises before
      any transform), then the data is brought to spectral space. */
  function Dealias23(dft: Dft, f: Field): (r: Result<Field>)
    requires Valid(f)
    ensures r.Ok? ==> Valid(r.value) && SameLayout(f, r.value) && r.value.tag == KSpace
    decreases if f.tag == KSpace then 1 else 4
  {
    var terms :- MaskTerms(|f.shape|);
    var g :- ToKSpace(dft, f);
    Ok(g.(data := MaskOut(g.shape, g.lengths, terms, g.data)))
  }

  /** `zero_nyquist` of the representation: the same index update as the
      standalone one in hermitianize.py. */
  function ZeroNyquist(dft: Dft, f: Field): (r: Result<Field>)
    requires Valid(f)
    ensures r.Ok? ==> Valid(r.value) && SameLayout(f, r.value) && r.value.tag == KSpace
    decreases if f.tag == KSpace then 1 else 4
  {
    var g :- ToKSpace(dft, f);
    Ok(g.(data := Hermitianize.ZeroNyquist(g.shape, g.data)))
  }

  function ZeroUnderEps(dft: Dft, f: Field): (r: Result<Field>)
    requires Valid(f)
    ensures r.Ok? ==> Valid(r.value) && SameLayout(f, r.value) && r.value.tag == KSpace
    decreases if f.tag == KSpace then 1 else 4
  {
    var g :- ToKSpace(dft, f);
    Ok(g.(data := ZeroSmall(g.shape, g.data)))
  }

  /** `backward`: dealias (which transforms forward first if needed), the
      inverse transform, then the tag. */
  function Backward(dft: Dft, f: Field): (r: Result<Field>)
    requires Valid(f)
    ensures r.Ok? ==> Valid(r.value) && SameLayout(f, r.value) && r.value.tag == XSpace
    ensures r.Ok? ==> forall idx :: idx in r.value.data ==> IsReal(r.value.data[idx])
  {
    var g :- if f.dealias then Dealias23(dft, f) else Ok(f);
    var h :- Ifft(dft, g);
    Ok(h.(tag := XSpace))
  }

  /** `__getitem__`: the representation after the lazy transform; its data
      is what the call returns. */
  function Get(dft: Dft, space: string, f: Field): (r: Result<Field>)
    requires Valid(f)
    ensures r.Ok? ==> Valid(r.value) && SameLayout(f, r.value)
    ensures r.Ok? ==> r.value.tag == space
    ensures space != f.tag && space != XSpace && space != KSpace ==> r == Err(KeyError)
  {
    if space == f.tag then Ok(f)
    else if space == XSpace then Backward(dft, f)
    else if space == KSpace then Forward(dft, f)
    else Err(KeyError)
  }

  // ---------------------------------------------------------------------
  // __setitem__
  // ---------------------------------------------------------------------

  /** Start of the block a smaller array is written to: `i/4 + 1`. */
  function Offset(n: nat): nat {
    n / 4 + 1
  }

  predicate InBlock(dshape: Shape, idx: Index)
    requires |idx| == |dshape|
  {
    forall k :: 0 <= k < |idx| ==> Offset(dshape[k]) <= idx[k] < Offset(dshape[k]) + dshape[k]
  }

  function Shift(dshape: Shape, idx: Index): (r: Index)
    requires |idx| == |dshape|
    ensures |r| == |idx| && forall k :: 0 <= k < |r| ==> r[k] == idx[k] - Offset(dshape[k])
  {
    seq(|idx|, k requires 0 <= k < |idx| => idx[k] - Offset(dshape[k]))
  }

  /** Index of `data[slice(S)...]` broadcast onto the whole buffer: an axis
      of extent 1 repeats its only entry. */
  function CornerSource(dshape: Shape, idx: Index): (r: Index)
    requires |idx| == |dshape|
    ensures |r| == |idx| && forall k :: 0 <= k < |r| ==> r[k] == (if dshape[k] == 1 then 0 else idx[k])
  {
    seq(|idx|, k requires 0 <= k < |idx| => if dshape[k] == 1 then 0 else idx[k])
  }

  /** numpy accepts the block assignment iff every axis of `d` fits inside
      the buffer from its offset on, or has extent 1 and broadcasts. */
  predicate BlockFits(shape: Shape, dshape: Shape)
    requires |dshape| == |shape|
  {
    forall k :: 0 <= k < |shape| ==> dshape[k] == 1 || Offset(dshape[k]) + dshape[k] <= shape[k]
  }

  /** numpy accepts the corner copy iff every axis of `d` covers the buffer
      or has extent 1. */
  predicate CornerFits(shape: Shape, dshape: Shape)
    requires |dshape| == |shape|
  {
    forall k :: 0 <= k < |shape| ==> dshape[k] >= shape[k] || dshape[k] == 1
  }

  /** The in-place copy of `__setitem__`: a smaller array goes into the block
      `[d/4+1, d/4+1+d)` of every axis, a larger one gives up its leading
      corner. */
  function CopyIn(shape: Shape, g: Grid, dshape: Shape, d: Grid): (r: Result<Grid>)
    requires WellFormed(shape, g) && |dshape| == |shape| && PositiveShape(dshape)
    requires WellFormed(dshape, d)
    ensures r.Ok? ==> WellFormed(shape, r.value)
  {
    if Size(dshape) < Size(shape) then
      if BlockFits(shape, dshape) then
        Ok(map idx | idx in g :: if InBlock(dshape, idx) then BlockEntry(shape, dshape, d, idx) else g[idx])
      else Err(BroadcastError)
    else
      if CornerFits(shape, dshape) then
        Ok(map idx | idx in g :: CornerEntry(shape, dshape, d, idx))
      else Err(BroadcastError)
  }

  function BlockEntry(shape: Shape, dshape: Shape, d: Grid, idx: Index): Complex
    requires |dshape| == |shape| && PositiveShape(dshape) && WellFormed(dshape, d)
    requires BlockFits(shape, dshape) && InBounds(shape, idx) && InBlock(dshape, idx)
  {
    assert InBounds(dshape, Shift(dshape, idx));
    d[Shift(dshape, idx)]
  }

  function CornerEntry(shape: Shape, dshape: Shape, d: Grid, idx: Index): Complex
    requires |dshape| == |shape| && PositiveShape(dshape) && WellFormed(dshape, d)
    requires CornerFits(shape, dshape) && InBounds(shape, idx)
  {
    assert InBounds(dshape, CornerSource(dshape, idx));
    d[CornerSource(dshape, idx)]
  }

  /** `__setitem__`: copy in place, take the tag as given, then dealias. */
  function Set(dft: Dft, f: Field, space: string, dshape: Shape, d: Grid): (r: Result<Field>)
    requires Valid(f) && |dshape| == |f.shape| && PositiveShape(dshape) && WellFormed(dshape, d)
    ensures r.Ok? ==> Valid(r.value) && SameLayout(f, r.value)
    ensures r.Ok? ==> r.value.tag == (if f.dealias then KSpace else space)
  {
    var g :- CopyIn(f.shape, f.data, dshape, d);
    var f' := f.(data := g, tag := space);
    if f'.dealias then Dealias23(dft, f') else Ok(f')
  }

  // ---------------------------------------------------------------------
  // deriv and k2
  // ---------------------------------------------------------------------

  /** `i * k` along `axis` at `idx`. */
  function IK(f: Field, axis: nat, idx: Index): Complex
    requires Valid(f) && axis < |f.shape| && InBounds(f.shape, idx)
  {
    Complex(0.0, Wavenumber(f.shape[axis], f.lengths[axis], idx[axis]))
  }

  /** `deriv(dim)`: the representation after the transform `deriv` may do,
      and the derivative it returns.  Only the tag `'xspace'` triggers the
      forward transform. */
  function Deriv(dft: Dft, f: Field, dim: char): (r: Result<(Field, Grid)>)
    requires Valid(f)
    ensures r.Ok? ==> Valid(r.value.0) && SameLayout(f, r.value.0)
    ensures r.Ok? ==> WellFormed(f.shape, r.value.1)
    ensures f.tag != XSpace ==> (r.Ok? <==> LabelAxis(|f.shape|, dim).Ok?)
    ensures f.tag != XSpace && r.Ok? ==> r.value.0 == f
  {
    var g :- if f.tag == XSpace then Forward(dft, f) else Ok(f);
    var axis :- LabelAxis(|g.shape|, dim);
    Ok((g, map idx | idx in g.data :: Mul(g.data[idx], IK(g, axis, idx))))
  }

  /** `k_j**2` at `idx`. */
  function KSquared(shape: Shape, lengths: seq<real>, idx: Index, j: nat): real
    requires InBounds(shape, idx) && |lengths| == |shape| && j < |shape|
    requires forall k :: 0 <= k < |lengths| ==> lengths[k] > 0.0
  {
    var w := Wavenumber(shape[j], lengths[j], idx[j]);
    w * w
  }

  /** `sum(k_j**2)` over the first `n` labelled axes. */
  function SumSquares(shape: Shape, lengths: seq<real>, idx: Index, n: nat): real
    requires InBounds(shape, idx) && |lengths| == |shape| && n <= |shape|
    requires forall k :: 0 <= k < |lengths| ==> lengths[k] > 0.0
  {
    if n == 0 then 0.0
    else SumSquares(shape, lengths, idx, n - 1) + KSquared(shape, lengths, idx, n - 1)
  }

  /** `k2(no_zero)`: the sum of `k**2` over the wavenumber arrays (one per
      label), with zero entries replaced by 1 when asked. */
  function K2(f: Field, noZero: bool): (r: map<Index, real>)
    requires Valid(f)
    ensures WellFormed(f.shape, r)
  {
    map idx | idx in f.data ::
      var s := SumSquares(f.shape, f.lengths, idx, |AxisLabels(|f.shape|)|);
      if noZero && s == 0.0 then 1.0 else s
  }
}
