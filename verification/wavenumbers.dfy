/** The wavenumber grid of a `FourierRepresentation` (fourier_data.py:59-72)
    and the 2/3 dealiasing mask built from it (fourier_data.py:159-167).
    Wavenumbers are kept in exact reals: `k = 2π·m/L` with `m` the signed
    `fftfreq` index, so every rule on them becomes a rule on integers. */
module Wavenumbers {
  import opened Results
  import opened Grids

  /** numpy's `pi`, the float64 value nearest to π, written out exactly. */
  const Pi: real := 3.141592653589793115997963468544185161590576171875

  function Abs(x: real): real {
    if x < 0.0 then -x else x
  }

  function IntAbs(x: int): nat {
    if x < 0 then -x else x
  }

  /** `fftfreq(S)[c] * S`: `0, 1, …, (S-1)/2`, then `-(S/2), …, -1`. */
  function FreqIndex(s: nat, c: int): (m: int)
    requires 0 <= c < s
    ensures -(s / 2) <= m <= (s - 1) / 2
    ensures (m - c) % s == 0
    ensures m == 0 <==> c == 0
  {
    if c <= (s - 1) / 2 then c else c - s
  }

  /** Mirroring a position negates its frequency, except at the Nyquist
      position of an even extent, whose mirror is itself. */
  lemma FreqIndexMirror(s: nat, c: int)
    requires 0 <= c < s
    ensures s % 2 == 0 && c == s / 2 ==> MirrorCoord(s, c) == c && FreqIndex(s, c) == -(s / 2)
    ensures !(s % 2 == 0 && c == s / 2) ==> FreqIndex(s, MirrorCoord(s, c)) == -FreqIndex(s, c)
  {
    MirrorCoordRange(s, c);
  }

  /** Nyquist wavenumber `kny_i = pi * S_i / L_i` (fourier_data.py:63). */
  function Kny(s: nat, len: real): (r: real)
    requires len > 0.0
    ensures r * len == Pi * (s as real)
    ensures s > 0 ==> r > 0.0
  {
    Pi * (s as real) / len
  }

  /** `fftfreq(S)[c] * 2 * kny`, as the constructor computes it. */
  function Wavenumber(s: nat, len: real, c: int): real
    requires len > 0.0 && 0 <= c < s
  {
    (FreqIndex(s, c) as real) / (s as real) * 2.0 * Kny(s, len)
  }

  /** The constructor's wavenumber is `2π·m/L`. */
  lemma WavenumberClosedForm(s: nat, len: real, c: int)
    requires len > 0.0 && 0 <= c < s
    ensures Wavenumber(s, len, c) == 2.0 * Pi * (FreqIndex(s, c) as real) / len
  {
    var m := FreqIndex(s, c) as real;
    var n := s as real;
    calc {
      Wavenumber(s, len, c);
      m / n * 2.0 * (Pi * n / len);
      { assert m / n * n == m; }
      2.0 * Pi * m / len;
    }
  }

  // ---------------------------------------------------------------------
  // Axis labels
  // ---------------------------------------------------------------------

  /** Python's normalisation of a slice start on a list of length `len`. */
  function SliceStart(len: nat, start: int): (r: nat)
    ensures r <= len
  {
    if start < 0 then (if start + len < 0 then 0 else start + len)
    else if start > len then len
    else start
  }

  /** `['z','y','x'][3-ndim:]`; zipped with the `ndim` wavenumber arrays,
      label `j` names axis `j` (fourier_data.py:72). */
  function AxisLabels(ndim: nat): (r: seq<char>)
    ensures |r| <= ndim && |r| <= 3
    ensures ndim <= 3 ==> |r| == ndim
  {
    "zyx"[SliceStart(3, 3 - ndim)..]
  }

  /** First position of `c` in `s`. */
  function IndexOf(s: seq<char>, c: char): (r: Result<nat>)
    ensures r.Ok? <==> c in s
    ensures r.Err? ==> r == Err(KeyError)
    ensures r.Ok? ==> r.value < |s| && s[r.value] == c && c !in s[..r.value]
  {
    if |s| == 0 then Err(KeyError)
    else if s[0] == c then Ok(0)
    else
      match IndexOf(s[1..], c)
      case Ok(j) => assert s[1..][..j] == s[1..j + 1]; Ok(j + 1)
      case Err(e) => Err(e)
  }

  /** The axis whose wavenumbers `self.k[label]` holds; a missing label
      raises `KeyError`. */
  function LabelAxis(ndim: nat, name: char): (r: Result<nat>)
    ensures r.Ok? <==> name in AxisLabels(ndim)
    ensures r.Err? ==> r == Err(KeyError)
    ensures r.Ok? ==> r.value < |AxisLabels(ndim)| <= ndim && AxisLabels(ndim)[r.value] == name
  {
    IndexOf(AxisLabels(ndim), name)
  }

  /** For one to three axes the labels read from the last axis backwards:
      `'x'` is always the last axis, `'y'` the one before, `'z'` the first of
      three, and nothing else is a label. */
  lemma LabelsOfSmallFields(ndim: nat)
    requires 1 <= ndim <= 3
    ensures |AxisLabels(ndim)| == ndim
    ensures LabelAxis(ndim, 'x') == Ok(ndim - 1)
    ensures LabelAxis(ndim, 'y') == (if ndim >= 2 then Ok(ndim - 2) else Err(KeyError))
    ensures LabelAxis(ndim, 'z') == (if ndim == 3 then Ok(0) else Err(KeyError))
    ensures forall c :: c != 'x' && c != 'y' && c != 'z' ==> LabelAxis(ndim, c).Err?
  {
    assert AxisLabels(ndim) == "zyx"[3 - ndim..];
    if ndim == 1 {
      assert AxisLabels(ndim) == "x";
    } else if ndim == 2 {
      assert AxisLabels(ndim) == "yx";
    } else {
      assert AxisLabels(ndim) == "zyx";
    }
  }

  /** With four axes the slice start wraps to 2: only `'x'` is a label, and
      it names axis 0, not the last axis. */
  lemma LabelsOfFourAxes()
    ensures AxisLabels(4) == "x"
    ensures LabelAxis(4, 'x') == Ok(0)
    ensures LabelAxis(4, 'y').Err?
  {
  }

  /** `self.trans` label to axis: `'x' -> 0`, `'y' -> 1`, `'z' -> 2`. */
  function TransLabelToAxis(name: char): (r: Result<nat>)
    ensures r.Ok? <==> name == 'x' || name == 'y' || name == 'z'
    ensures r.Ok? ==> r.value < 3
  {
    if name == 'x' then Ok(0) else if name == 'y' then Ok(1) else if name == 'z' then Ok(2)
    else Err(KeyError)
  }

  /** `self.trans` axis to label as written: `0 -> 'x'`, `1 -> 'y'`,
      `2 -> 'y'` (fourier_data.py:59-60). */
  function TransAxisToLabel(axis: int): (r: Result<char>)
    ensures r.Ok? <==> 0 <= axis < 3
    ensures r.Ok? ==> r.value == 'x' || r.value == 'y'
  {
    if axis == 0 then Ok('x') else if axis == 1 || axis == 2 then Ok('y') else Err(KeyError)
  }

  /** The table as written does not round-trip: axis 2 comes back as axis 1,
      and the label `'z'` is never produced. */
  lemma TransCollision()
    ensures TransAxisToLabel(2) == TransAxisToLabel(1)
    ensures TransLabelToAxis(TransAxisToLabel(2).value) == Ok(1)
    ensures forall a :: TransAxisToLabel(a) != Ok('z')
  {
  }

  /** The axis to label table with `2 -> 'z'`, as the first half of the same
      table and `Physics._trans` have it. */
  function TransAxisToLabelFixed(axis: int): (r: Result<char>)
    ensures r.Ok? <==> 0 <= axis < 3
  {
    if axis == 0 then Ok('x') else if axis == 1 then Ok('y') else if axis == 2 then Ok('z')
    else Err(KeyError)
  }

  /** The corrected table is the inverse of the label to axis half. */
  lemma TransFixedRoundTrip(axis: int, name: char)
    ensures 0 <= axis < 3 ==> TransLabelToAxis(TransAxisToLabelFixed(axis).value) == Ok(axis)
    ensures TransLabelToAxis(name).Ok? ==> TransAxisToLabelFixed(TransLabelToAxis(name).value) == Ok(name)
  {
  }

  // ---------------------------------------------------------------------
  // The 2/3 dealiasing mask
  // ---------------------------------------------------------------------

  /** `abs(k) > 2/3. * kny` for one coordinate, with `k` of extent `s` and
      the Nyquist wavenumber of extent `nyS`, length `nyL`. */
  predicate Beyond(s: nat, len: real, c: int, nyS: nat, nyL: real)
    requires len > 0.0 && nyL > 0.0 && 0 <= c < s
  {
    Abs(Wavenumber(s, len, c)) > (2.0 / 3.0) * Kny(nyS, nyL)
  }

  lemma ScalePositive(a: real, b: real, u: real)
    requires u > 0.0
    ensures a * u > b * u <==> a > b
  {
    if a > b {
      assert a * u - b * u == (a - b) * u;
    } else {
      assert b * u - a * u == (b - a) * u;
    }
  }

  /** On its own axis the mask test is the integer test `3|m| > S`. */
  lemma BeyondIff(s: nat, len: real, c: int)
    requires len > 0.0 && 0 <= c < s
    ensures Beyond(s, len, c, s, len) <==> 3 * IntAbs(FreqIndex(s, c)) > s
  {
    var a := IntAbs(FreqIndex(s, c));
    var x, y, u := 2.0 * (a as real), (2.0 / 3.0) * (s as real), Pi / len;
    WavenumberAbs(s, len, c);
    ThresholdForm(s, len);
    ScaledCompare(Abs(Wavenumber(s, len, c)), (2.0 / 3.0) * Kny(s, len), x, y, u);
    ThirdsIff(a, s);
  }

  lemma ScaledCompare(w: real, t: real, x: real, y: real, u: real)
    requires u > 0.0 && w == x * u && t == y * u
    ensures w > t <==> x > y
  {
    ScalePositive(x, y, u);
  }

  /** `|k| = 2|m|·(π/L)`. */
  lemma WavenumberAbs(s: nat, len: real, c: int)
    requires len > 0.0 && 0 <= c < s
    ensures Abs(Wavenumber(s, len, c)) == (2.0 * (IntAbs(FreqIndex(s, c)) as real)) * (Pi / len)
  {
    WavenumberClosedForm(s, len, c);
    var m := FreqIndex(s, c) as real;
    assert 2.0 * Pi * m / len == (2.0 * m) * (Pi / len);
  }

  /** `2/3·kny = (2/3·S)·(π/L)`. */
  lemma ThresholdForm(s: nat, len: real)
    requires len > 0.0
    ensures Pi / len > 0.0
    ensures (2.0 / 3.0) * Kny(s, len) == ((2.0 / 3.0) * (s as real)) * (Pi / len)
  {
  }

  lemma ThirdsIff(a: nat, s: nat)
    ensures 2.0 * (a as real) > (2.0 / 3.0) * (s as real) <==> 3 * a > s
  {
  }

  /** For an even extent the Nyquist position is always masked. */
  lemma NyquistBeyond(s: nat, len: real)
    requires len > 0.0 && s >= 2 && s % 2 == 0
    ensures Beyond(s, len, s / 2, s, len)
  {
    BeyondIff(s, len, s / 2);
  }

  /** The mask is unchanged by mirroring a coordinate. */
  lemma BeyondMirror(s: nat, len: real, c: int)
    requires len > 0.0 && 0 <= c < s
    ensures 0 <= MirrorCoord(s, c) < s
    ensures Beyond(s, len, MirrorCoord(s, c), s, len) <==> Beyond(s, len, c, s, len)
  {
    MirrorCoordRange(s, c);
    FreqIndexMirror(s, c);
    BeyondIff(s, len, c);
    BeyondIff(s, len, MirrorCoord(s, c));
  }

  /** One mask term: the axis `self.k[label]` lives on, and the position of
      `self.kny` it is compared with. */
  datatype Term = Term(axis: nat, nyAxis: nat)

  /** The terms `dealias_23` builds: `'x'` against `kny[-1]`, `'y'` against
      `kny[-2]`, and `'z'` against `kny[-3]` when there are three axes; a
      missing label raises `KeyError`. */
  function MaskTerms(ndim: nat): (r: Result<seq<Term>>)
    ensures r.Ok? <==> 'x' in AxisLabels(ndim) && 'y' in AxisLabels(ndim)
    ensures r.Err? ==> r == Err(KeyError)
    ensures r.Ok? ==> ndim >= 2 && forall t :: t in r.value ==> t.axis < ndim && t.nyAxis < ndim
  {
    var x :- LabelAxis(ndim, 'x');
    var y :- LabelAxis(ndim, 'y');
    if ndim == 3 then
      var z := LabelAxis(3, 'z');
      LabelsOfSmallFields(3);
      Ok([Term(x, ndim - 1), Term(y, ndim - 2), Term(z.value, ndim - 3)])
    else
      Ok([Term(x, ndim - 1), Term(y, ndim - 2)])
  }

  /** The mask has a term for each axis of a two- or three-axis field, each
      compared with its own Nyquist wavenumber; other ranks raise. */
  lemma MaskTermsOfSmallFields(ndim: nat)
    requires 1 <= ndim <= 4
    ensures MaskTerms(ndim).Ok? <==> ndim == 2 || ndim == 3
    ensures ndim == 2 ==> MaskTerms(ndim) == Ok([Term(1, 1), Term(0, 0)])
    ensures ndim == 3 ==> MaskTerms(ndim) == Ok([Term(2, 2), Term(1, 1), Term(0, 0)])
  {
    if ndim <= 3 {
      LabelsOfSmallFields(ndim);
    } else {
      LabelsOfFourAxes();
    }
  }

  /** `dmask[idx]`: some term is beyond two thirds of its Nyquist wavenumber. */
  predicate Masked(shape: Shape, lengths: seq<real>, terms: seq<Term>, idx: Index)
    requires InBounds(shape, idx) && |lengths| == |shape|
    requires forall k :: 0 <= k < |lengths| ==> lengths[k] > 0.0
    requires forall t :: t in terms ==> t.axis < |shape| && t.nyAxis < |shape|
  {
    exists t :: t in terms &&
      Beyond(shape[t.axis], lengths[t.axis], idx[t.axis], shape[t.nyAxis], lengths[t.nyAxis])
  }

  /** For two or three axes a mode is masked iff some axis has `3|m| > S`. */
  lemma MaskedIff(shape: Shape, lengths: seq<real>, idx: Index)
    requires 2 <= |shape| <= 3 && InBounds(shape, idx) && |lengths| == |shape|
    requires forall k :: 0 <= k < |lengths| ==> lengths[k] > 0.0
    ensures MaskTerms(|shape|).Ok?
    ensures Masked(shape, lengths, MaskTerms(|shape|).value, idx)
            <==> exists k :: 0 <= k < |shape| && 3 * IntAbs(FreqIndex(shape[k], idx[k])) > shape[k]
  {
    MaskTermsOfSmallFields(|shape|);
    DiagonalMaskedIff(shape, lengths, MaskTerms(|shape|).value, idx);
  }

  /** A term list that compares every axis with its own Nyquist wavenumber
      and nothing else masks exactly the modes with some `3|m| > S`. */
  lemma DiagonalMaskedIff(shape: Shape, lengths: seq<real>, terms: seq<Term>, idx: Index)
    requires InBounds(shape, idx) && |lengths| == |shape|
    requires forall k :: 0 <= k < |lengths| ==> lengths[k] > 0.0
    requires forall t :: t in terms ==> t.axis < |shape| && t.nyAxis == t.axis
    requires forall k :: 0 <= k < |shape| ==> Term(k, k) in terms
    ensures Masked(shape, lengths, terms, idx)
            <==> exists k :: 0 <= k < |shape| && 3 * IntAbs(FreqIndex(shape[k], idx[k])) > shape[k]
  {
    if Masked(shape, lengths, terms, idx) {
      var t :| t in terms && Beyond(shape[t.axis], lengths[t.axis], idx[t.axis], shape[t.nyAxis], lengths[t.nyAxis]);
      BeyondIff(shape[t.axis], lengths[t.axis], idx[t.axis]);
    }
    if k :| 0 <= k < |shape| && 3 * IntAbs(FreqIndex(shape[k], idx[k])) > shape[k] {
      assert Term(k, k) in terms;
      BeyondIff(shape[k], lengths[k], idx[k]);
    }
  }

  /** A mirrored index is masked iff the index is. */
  lemma MaskedMirror(shape: Shape, lengths: seq<real>, idx: Index)
    requires 2 <= |shape| <= 3 && InBounds(shape, idx) && |lengths| == |shape|
    requires forall k :: 0 <= k < |lengths| ==> lengths[k] > 0.0
    ensures InBounds(shape, Mirror(shape, idx)) && MaskTerms(|shape|).Ok?
    ensures Masked(shape, lengths, MaskTerms(|shape|).value, Mirror(shape, idx))
            <==> Masked(shape, lengths, MaskTerms(|shape|).value, idx)
  {
    MirrorInBounds(shape, idx);
    MaskedIff(shape, lengths, idx);
    MaskedIff(shape, lengths, Mirror(shape, idx));
    forall k | 0 <= k < |shape|
      ensures 3 * IntAbs(FreqIndex(shape[k], Mirror(shape, idx)[k])) > shape[k]
              <==> 3 * IntAbs(FreqIndex(shape[k], idx[k])) > shape[k]
    {
      FreqIndexMirror(shape[k], idx[k]);
    }
  }
}
