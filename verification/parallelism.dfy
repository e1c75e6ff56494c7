/** Slab decomposition of the global grid over the ranks of a run
    (`setup_parallel_objs`, parallelism.py:31-51): each rank keeps the
    leading axis divided by the number of processes and everything else.
    The communicator is replaced by its size `nproc`. */
module Parallelism {
  import opened Results

  /** A Python 2 number as a caller passes it: the lengths are documented
      as reals, but a tuple of ints is accepted just as well. */
  datatype Number = PyInt(n: int) | PyFloat(x: real)

  function Value(v: Number): real {
    match v
    case PyInt(n) => n as real
    case PyFloat(x) => x
  }

  /** Python 2 `v / d` for a positive int divisor: an int floors, a float
      divides exactly. */
  function Py2Div(v: Number, d: int): (r: Number)
    requires d >= 1
    ensures r.PyInt? <==> v.PyInt?
    ensures v.PyInt? ==> d * r.n <= v.n < d * (r.n + 1)
    ensures v.PyFloat? ==> r.x * (d as real) == v.x
  {
    match v
    case PyInt(n) => PyInt(n / d)
    case PyFloat(x) => PyFloat(x / (d as real))
  }

  /** The local shape and length a rank works with. */
  datatype Slab = Slab(shape: seq<int>, length: seq<Number>)

  /** `setup_parallel_objs(global_shape, global_len)`. Both leading entries
      are divided with Python 2 `/`: the integer shape floors (which for a
      positive divisor is Dafny's `/`), and so does an integer length; a
      float length divides exactly. An empty tuple raises on the read of
      its first entry. */
  function SetupParallelObjs(globalShape: seq<int>, globalLen: seq<Number>, nproc: int): (r: Result<Slab>)
    requires nproc >= 1
    ensures r.Err? <==> |globalShape| == 0 || |globalLen| == 0
    ensures r.Err? ==> r.error == IndexError
    ensures r.Ok? ==> |r.value.shape| == |globalShape| && |r.value.length| == |globalLen|
    ensures r.Ok? ==> r.value.shape[1..] == globalShape[1..] && r.value.length[1..] == globalLen[1..]
    ensures r.Ok? ==> nproc * r.value.shape[0] <= globalShape[0] < nproc * (r.value.shape[0] + 1)
    ensures r.Ok? && globalLen[0].PyFloat? ==>
      r.value.length[0].PyFloat? && r.value.length[0].x * (nproc as real) == globalLen[0].x
    ensures r.Ok? && globalLen[0].PyInt? ==>
      r.value.length[0].PyInt? && nproc * r.value.length[0].n <= globalLen[0].n < nproc * (r.value.length[0].n + 1)
  {
    if |globalShape| == 0 || |globalLen| == 0 then Err(IndexError)
    else
      var localShape := [globalShape[0] / nproc] + globalShape[1..];
      var localLen := [Py2Div(globalLen[0], nproc)] + globalLen[1..];
      Ok(Slab(localShape, localLen))
  }

  /** The rows the slabs hold together: all of the leading axis exactly
      when `nproc` divides it; otherwise the remainder rows belong to no
      rank. */
  lemma SlabsCoverRows(globalShape: seq<int>, globalLen: seq<Number>, nproc: int)
    requires nproc >= 1 && |globalShape| > 0 && |globalLen| > 0
    ensures var slab := SetupParallelObjs(globalShape, globalLen, nproc).value;
      nproc * slab.shape[0] == globalShape[0] <==> globalShape[0] % nproc == 0
  {
    var q := SetupParallelObjs(globalShape, globalLen, nproc).value.shape[0];
    assert q == globalShape[0] / nproc;
  }

  /** When the slabs cover the leading axis exactly, a rank's grid spacing
      along it is the global spacing, unless the length is an int that
      `nproc` does not divide: then the floored length shrinks it. */
  lemma SpacingPreserved(globalShape: seq<int>, globalLen: seq<Number>, nproc: int)
    requires nproc >= 1 && |globalShape| > 0 && |globalLen| > 0
    requires globalShape[0] > 0 && globalShape[0] % nproc == 0
    ensures var slab := SetupParallelObjs(globalShape, globalLen, nproc).value;
      slab.shape[0] > 0 &&
      (Value(slab.length[0]) / (slab.shape[0] as real) == Value(globalLen[0]) / (globalShape[0] as real)
       <==> globalLen[0].PyFloat? || globalLen[0].n % nproc == 0)
  {
    var slab := SetupParallelObjs(globalShape, globalLen, nproc).value;
    var q := slab.shape[0];
    SlabsCoverRows(globalShape, globalLen, nproc);
    var p := nproc as real;
    assert (globalShape[0] as real) == p * (q as real);
    SpacingRatio(Value(slab.length[0]), Value(globalLen[0]), p, q as real);
    if globalLen[0].PyInt? {
      var n := globalLen[0].n;
      var m := slab.length[0].n;
      assert m == n / nproc;
      assert Value(slab.length[0]) * p == (m * nproc) as real;
      assert n % nproc == 0 <==> m * nproc == n;
    }
  }

  /** Spacing along `q` local rows equals the global one over `p*q` rows
      exactly when the local length is the `p`-th part of the global. */
  lemma SpacingRatio(l: real, g: real, p: real, q: real)
    requires p > 0.0 && q > 0.0
    ensures l / q == g / (p * q) <==> l * p == g
  {
    assert g / (p * q) == (g / p) / q;
    assert l / q == (g / p) / q <==> l == g / p;
    assert l == g / p <==> l * p == g;
  }

  /** The three-dimensional sample passes `L = (1000,)*3`, ints: on three
      ranks each slab is 333 long, not 1000/3. */
  lemma IntLengthsFloor()
    ensures SetupParallelObjs([32, 32, 32], [PyInt(1000), PyInt(1000), PyInt(1000)], 3)
            == Ok(Slab([10, 32, 32], [PyInt(333), PyInt(1000), PyInt(1000)]))
  {
    var len := [PyInt(1000), PyInt(1000), PyInt(1000)];
    assert Py2Div(PyInt(1000), 3) == PyInt(333);
    assert [32 / 3] + [32, 32, 32][1..] == [10, 32, 32];
    assert [Py2Div(len[0], 3)] + len[1..] == [PyInt(333), PyInt(1000), PyInt(1000)];
  }

  /** A cube split into slabs passes the thickness check of the parallel
      Hermitian step: the local leading extent is the second extent
      divided by the number of ranks. */
  lemma CubeSlabsPassHermitianCheck(globalShape: seq<int>, globalLen: seq<Number>, nproc: int)
    requires nproc >= 1 && |globalShape| >= 2 && |globalLen| > 0
    requires globalShape[0] == globalShape[1]
    ensures var slab := SetupParallelObjs(globalShape, globalLen, nproc).value;
      slab.shape[1] / nproc == slab.shape[0]
  {
    var slab := SetupParallelObjs(globalShape, globalLen, nproc).value;
    assert slab.shape[1] == slab.shape[1..][0] == globalShape[1..][0];
  }
}
