/** The parallel path of `enforce_hermitian` (hermitianize.py:38-64): every
    rank holds a slab of `sz` rows of the leading axis, swaps its whole slab
    with two mirror ranks, and averages each entry with the conjugate of its
    mirror.  The MPI calls themselves are not modelled; what is modelled is
    which rank talks to which, which received row is the mirror of which
    local row, and the arithmetic done with it. */
module HermitianParallel {
  import opened Complex
  import opened Grids
  import opened Results
  import Hermitianize
  import HermitianProofs

  /** `left = nproc - myproc - 1`. */
  function LeftPeer(nproc: nat, rank: nat): (p: nat)
    requires rank < nproc
    ensures p < nproc
  {
    nproc - rank - 1
  }

  /** `right = (nproc - myproc) % nproc`. */
  function RightPeer(nproc: nat, rank: nat): (p: nat)
    requires rank < nproc
    ensures p < nproc
  {
    (nproc - rank) % nproc
  }

  /** Both peer maps are involutions: the peer's peer is the rank itself. */
  lemma PeersInvolutive(nproc: nat, rank: nat)
    requires rank < nproc
    ensures LeftPeer(nproc, LeftPeer(nproc, rank)) == rank
    ensures RightPeer(nproc, RightPeer(nproc, rank)) == rank
  {
    if rank != 0 {
      assert RightPeer(nproc, rank) == nproc - rank;
    }
  }

  /** Messages rank `src` sends to rank `dst` (one `isend` to each peer). */
  function SendCount(nproc: nat, src: nat, dst: nat): nat
    requires src < nproc
  {
    (if LeftPeer(nproc, src) == dst then 1 else 0) + (if RightPeer(nproc, src) == dst then 1 else 0)
  }

  /** Messages rank `dst` receives from rank `src` (one `recv` from each peer). */
  function RecvCount(nproc: nat, src: nat, dst: nat): nat
    requires dst < nproc
  {
    (if LeftPeer(nproc, dst) == src then 1 else 0) + (if RightPeer(nproc, dst) == src then 1 else 0)
  }

  /** Every send is matched by a receive and vice versa, for every pair of
      ranks: the exchange cannot block on an unmatched message. */
  lemma ExchangeBalanced(nproc: nat, src: nat, dst: nat)
    requires src < nproc && dst < nproc
    ensures SendCount(nproc, src, dst) == RecvCount(nproc, src, dst)
  {
    PeersInvolutive(nproc, src);
    PeersInvolutive(nproc, dst);
  }

  /** Where the row paired with local row `a` lives: `recv[sz:0:-1]` reads row
      `sz - a` of `concatenate((recvleft, recvright))`. */
  datatype Source = FromLeft(row: int) | FromRight(row: int)

  function MirrorRowSource(sz: nat, a: nat): Source
    requires a < sz
  {
    var row := sz - a;
    if row < sz then FromLeft(row) else FromRight(row - sz)
  }

  /** Global row of a peer's local row. */
  function GlobalRow(nproc: nat, rank: nat, sz: nat, src: Source): int
    requires rank < nproc
  {
    match src
    case FromLeft(row) => LeftPeer(nproc, rank) * sz + row
    case FromRight(row) => RightPeer(nproc, rank) * sz + row
  }

  /** The received row paired with local row `a` is exactly the global mirror
      of that row: `right`'s row 0 when `a == 0`, `left`'s row `sz - a`
      otherwise. */
  lemma MirrorRowIsGlobalMirror(nproc: nat, rank: nat, sz: nat, a: nat)
    requires rank < nproc && a < sz
    ensures a == 0 ==> MirrorRowSource(sz, a) == FromRight(0)
    ensures a > 0 ==> MirrorRowSource(sz, a) == FromLeft(sz - a)
    ensures GlobalRow(nproc, rank, sz, MirrorRowSource(sz, a))
            == MirrorCoord(nproc * sz, rank * sz + a)
    ensures 0 <= rank * sz + a < nproc * sz
  {
    var p := rank * sz;
    var n := nproc * sz;
    SlabArithmetic(nproc, rank, sz);
    assert p + a < n;
    if a == 0 {
      assert MirrorRowSource(sz, a) == FromRight(0);
      if rank == 0 {
        assert p == 0;
      } else {
        assert p > 0;
        assert RightPeer(nproc, rank) == nproc - rank;
      }
    } else {
      assert MirrorRowSource(sz, a) == FromLeft(sz - a);
      assert p + a > 0;
    }
  }

  /** The products the slab layout rests on. */
  lemma SlabArithmetic(nproc: nat, rank: nat, sz: nat)
    requires rank < nproc
    ensures (nproc - rank - 1) * sz == nproc * sz - rank * sz - sz
    ensures (nproc - rank) * sz == nproc * sz - rank * sz
    ensures rank * sz + sz <= nproc * sz
    ensures sz > 0 && rank > 0 ==> rank * sz > 0
  {
  }

  function Average(x: Complex, y: Complex): Complex {
    Scale(0.5, Add(x, y))
  }

  /** First row of the Python slice `recv[sz:0:-1]` on the `2 * len` rows of
      `concatenate((recvleft, recvright))`: the start is clipped to the last
      row, and the slice runs down to row 1, so it selects `start` rows. */
  function DownSliceStart(sz: nat, len: nat): (start: nat)
    requires len >= 1
    ensures start <= sz && start <= 2 * len - 1
    ensures start == sz || start == 2 * len - 1
  {
    if sz < 2 * len - 1 then sz else 2 * len - 1
  }

  /** The `start` selected rows fit the `len` local rows under numpy
      broadcasting: equal counts, or a single row repeated. */
  predicate RowsBroadcast(start: nat, len: nat) {
    start == len || start == 1
  }

  /** The received index read for local `idx`: row `row`, axes 1 and 2
      mirrored, and any further axes taken whole by the slices, so unchanged. */
  function RecvIndex(shape: Shape, row: nat, idx: Index): (ri: Index)
    requires |shape| >= 3 && InBounds(shape, idx) && row < shape[0]
    ensures InBounds(shape, ri)
    ensures ri[0] == row && ri[1] == Mirror(shape, idx)[1] && ri[2] == Mirror(shape, idx)[2]
    ensures ri[3..] == idx[3..]
  {
    MirrorCoordRange(shape[1], idx[1]);
    MirrorCoordRange(shape[2], idx[2]);
    [row, MirrorCoord(shape[1], idx[1]), MirrorCoord(shape[2], idx[2])] + idx[3..]
  }

  /** `conj` of the received entry paired with local `idx`; the four update
      statements of the source together mirror axes 1 and 2 as well.  When
      the slice selects `len` rows, local row `a` meets row `len - a`; when it
      selects one row (row 1, on the left block), every local row meets it. */
  function MirrorEntry(shape: Shape, start: nat, recvLeft: Grid, recvRight: Grid, idx: Index): Complex
    requires |shape| >= 3 && PositiveShape(shape) && RowsBroadcast(start, shape[0])
    requires WellFormed(shape, recvLeft) && WellFormed(shape, recvRight)
    requires InBounds(shape, idx)
  {
    var src := if start == shape[0] then MirrorRowSource(shape[0], idx[0]) else FromLeft(1);
    match src
    case FromLeft(row) => Conj(recvLeft[RecvIndex(shape, row, idx)])
    case FromRight(row) => Conj(recvRight[RecvIndex(shape, row, idx)])
  }

  /** The local update `data = (data + recv[mirror].conj()) / 2` of one rank,
      with `sz = data.shape[1] / nproc`.  A slab of one axis has no
      `shape[1]`, and one of two axes has too few for `data[:,1:,1:]`: both
      raise `IndexError`.  numpy raises too when the rows of `recv[sz:0:-1]`
      do not broadcast against the local rows. */
  function ParallelStep(shape: Shape, nproc: nat, local: Grid, recvLeft: Grid, recvRight: Grid): (r: Result<Grid>)
    requires PositiveShape(shape) && nproc >= 1
    requires WellFormed(shape, local) && WellFormed(shape, recvLeft) && WellFormed(shape, recvRight)
    ensures r.Ok? ==> WellFormed(shape, r.value)
    ensures |shape| < 3 ==> r == Err(IndexError)
    ensures |shape| >= 3 && r.Err? ==> r == Err(BroadcastError)
    ensures r.Ok? <==> |shape| >= 3 && var sz := shape[1] / nproc;
      sz >= 1 && (sz == shape[0] || shape[0] == 1 || sz == 1)
  {
    if |shape| < 3 then Err(IndexError)
    else
      var start := DownSliceStart(shape[1] / nproc, shape[0]);
      if !RowsBroadcast(start, shape[0]) then Err(BroadcastError)
      else Ok(map idx | idx in local :: Average(local[idx], MirrorEntry(shape, start, recvLeft, recvRight, idx)))
  }

  /** On a slab of four or more axes the step runs, but only axes 0 to 2
      are mirrored: the slices take every further axis whole, so the entry
      met keeps `idx`'s own trailing coordinates. */
  lemma ParallelStepTrailingAxes(shape: Shape, nproc: nat, local: Grid, recvLeft: Grid, recvRight: Grid, idx: Index)
    requires |shape| >= 4 && PositiveShape(shape) && nproc >= 1
    requires WellFormed(shape, local) && WellFormed(shape, recvLeft) && WellFormed(shape, recvRight)
    requires shape[1] / nproc == shape[0] && idx in local
    ensures ParallelStep(shape, nproc, local, recvLeft, recvRight).Ok?
    ensures var m := Mirror(shape, idx);
      var v := ParallelStep(shape, nproc, local, recvLeft, recvRight).value;
      match MirrorRowSource(shape[0], idx[0])
      case FromLeft(row) =>
        [row, m[1], m[2]] + idx[3..] in recvLeft
        && v[idx] == Average(local[idx], Conj(recvLeft[[row, m[1], m[2]] + idx[3..]]))
      case FromRight(row) =>
        [row, m[1], m[2]] + idx[3..] in recvRight
        && v[idx] == Average(local[idx], Conj(recvRight[[row, m[1], m[2]] + idx[3..]]))
  {
    assert DownSliceStart(shape[1] / nproc, shape[0]) == shape[0];
    var m := Mirror(shape, idx);
    match MirrorRowSource(shape[0], idx[0])
    case FromLeft(row) =>
      assert RecvIndex(shape, row, idx) == [row, m[1], m[2]] + idx[3..];
    case FromRight(row) =>
      assert RecvIndex(shape, row, idx) == [row, m[1], m[2]] + idx[3..];
  }

  /** With `sz == 1` on a slab of several rows, the single selected row 1 of
      `recvleft` is broadcast: every local row is averaged with that row's
      mirror in axes 1 and 2, whatever its own mirror row is. */
  lemma ParallelStepBroadcastsRow(shape: Shape, nproc: nat, local: Grid, recvLeft: Grid, recvRight: Grid, idx: Index)
    requires |shape| == 3 && PositiveShape(shape) && nproc >= 1
    requires WellFormed(shape, local) && WellFormed(shape, recvLeft) && WellFormed(shape, recvRight)
    requires shape[1] / nproc == 1 && shape[0] > 1 && idx in local
    ensures ParallelStep(shape, nproc, local, recvLeft, recvRight).Ok?
    ensures var m := Mirror(shape, idx);
      [1, m[1], m[2]] in recvLeft &&
      ParallelStep(shape, nproc, local, recvLeft, recvRight).value[idx]
        == Average(local[idx], Conj(recvLeft[[1, m[1], m[2]]]))
  {
    MirrorCoordRange(shape[1], idx[1]);
    MirrorCoordRange(shape[2], idx[2]);
    var m := Mirror(shape, idx);
    assert DownSliceStart(shape[1] / nproc, shape[0]) == 1;
    assert InBounds(shape, [1, m[1], m[2]]);
    assert RecvIndex(shape, 1, idx) == [1, m[1], m[2]];
    assert MirrorEntry(shape, 1, recvLeft, recvRight, idx) == Conj(recvLeft[[1, m[1], m[2]]]);
  }

  /** A slab one row thick meets the same received row whatever `sz >= 1` is:
      the clipped slice `recv[sz:0:-1]` is always row 1, `recvright[0]`. */
  lemma ThinSlabAligned(sz: nat)
    requires sz >= 1
    ensures DownSliceStart(sz, 1) == 1
  {
  }

  /** Local slabs of the global shapes (2,4,4) on 2 ranks and (8,4,4) on 4
      ranks go through by clipping and by broadcasting; (4,6,4) on 2 ranks
      selects 3 rows for a slab of 2 and raises; slabs of one or two axes
      raise on their missing axes. */
  lemma ParallelStepCases(g: Grid, h: Grid, e: Grid, line: Grid, plane: Grid)
    requires WellFormed([1, 4, 4], g) && WellFormed([2, 4, 4], h) && WellFormed([2, 6, 4], e)
    requires WellFormed([4], line) && WellFormed([2, 4], plane)
    ensures ParallelStep([1, 4, 4], 2, g, g, g).Ok?
    ensures ParallelStep([2, 4, 4], 4, h, h, h).Ok?
    ensures ParallelStep([2, 6, 4], 2, e, e, e) == Err(BroadcastError)
    ensures ParallelStep([4], 1, line, line, line) == Err(IndexError)
    ensures ParallelStep([2, 4], 2, plane, plane, plane) == Err(IndexError)
  {
  }

  // ---------------------------------------------------------------------
  // Relation to the global array
  // ---------------------------------------------------------------------

  /** Global index of a local index on `rank`. */
  function ToGlobal(rank: nat, sz: nat, idx: Index): Index
    requires |idx| == 3
  {
    [rank * sz + idx[0], idx[1], idx[2]]
  }

  /** `s` is rank `rank`'s slab of the global array `g`. */
  ghost predicate IsSlab(gshape: Shape, g: Grid, shape: Shape, rank: nat, s: Grid)
    requires |shape| == 3
  {
    WellFormed(shape, s)
    && forall idx :: idx in s ==> ToGlobal(rank, shape[0], idx) in g && s[idx] == g[ToGlobal(rank, shape[0], idx)]
  }

  /** The global average `(G + conj(G[-idx])) / 2`. */
  function GlobalAverage(gshape: Shape, g: Grid): (r: Grid)
    requires WellFormed(gshape, g)
    ensures WellFormed(gshape, r)
  {
    map idx | idx in g :: (MirrorInBounds(gshape, idx); Average(g[idx], Conj(g[Mirror(gshape, idx)])))
  }

  lemma GlobalMirrorOfLocal(nproc: nat, rank: nat, shape: Shape, idx: Index)
    requires |shape| == 3 && PositiveShape(shape) && rank < nproc && InBounds(shape, idx)
    ensures var gshape := [nproc * shape[0], shape[1], shape[2]];
      var m := Mirror(gshape, ToGlobal(rank, shape[0], idx));
      match MirrorRowSource(shape[0], idx[0])
      case FromLeft(row) => m == ToGlobal(LeftPeer(nproc, rank), shape[0], [row, m[1], m[2]])
      case FromRight(row) => m == ToGlobal(RightPeer(nproc, rank), shape[0], [row, m[1], m[2]])
  {
    MirrorRowIsGlobalMirror(nproc, rank, shape[0], idx[0]);
  }

  /** One entry of `ParallelStepIsGlobalAverage`. */
  lemma ParallelEntry(nproc: nat, rank: nat, shape: Shape, g: Grid,
                      local: Grid, recvLeft: Grid, recvRight: Grid, idx: Index)
    requires |shape| == 3 && PositiveShape(shape) && rank < nproc
    requires WellFormed([nproc * shape[0], shape[1], shape[2]], g)
    requires IsSlab([nproc * shape[0], shape[1], shape[2]], g, shape, rank, local)
    requires IsSlab([nproc * shape[0], shape[1], shape[2]], g, shape, LeftPeer(nproc, rank), recvLeft)
    requires IsSlab([nproc * shape[0], shape[1], shape[2]], g, shape, RightPeer(nproc, rank), recvRight)
    requires idx in local
    ensures ToGlobal(rank, shape[0], idx) in g
    ensures MirrorEntry(shape, shape[0], recvLeft, recvRight, idx)
            == Conj(g[Mirror([nproc * shape[0], shape[1], shape[2]], ToGlobal(rank, shape[0], idx))])
  {
    var gshape := [nproc * shape[0], shape[1], shape[2]];
    var gi := ToGlobal(rank, shape[0], idx);
    MirrorCoordRange(shape[1], idx[1]);
    MirrorCoordRange(shape[2], idx[2]);
    GlobalMirrorOfLocal(nproc, rank, shape, idx);
    var m := Mirror(gshape, gi);
    assert RecvIndex(shape, MirrorRowSource(shape[0], idx[0]).row, idx) == [MirrorRowSource(shape[0], idx[0]).row, m[1], m[2]];
    match MirrorRowSource(shape[0], idx[0])
    case FromLeft(row) =>
      ReceivedEntry(gshape, g, shape, LeftPeer(nproc, rank), recvLeft, [row, m[1], m[2]], m);
    case FromRight(row) =>
      ReceivedEntry(gshape, g, shape, RightPeer(nproc, rank), recvRight, [row, m[1], m[2]], m);
  }

  /** A received entry is the global entry its sender's slab places it at. */
  lemma ReceivedEntry(gshape: Shape, g: Grid, shape: Shape, peer: nat, recv: Grid, li: Index, m: Index)
    requires |shape| == 3 && IsSlab(gshape, g, shape, peer, recv)
    requires InBounds(shape, li) && ToGlobal(peer, shape[0], li) == m
    ensures li in recv && m in g && recv[li] == g[m]
  {
  }

  /** When every rank holds its slab of one global array and `sz` is the slab
      thickness (or the slab is one row thick), the parallel step computes,
      on each rank, that rank's slab of the global average. */
  lemma ParallelStepIsGlobalAverage(nproc: nat, rank: nat, shape: Shape, g: Grid,
                                    local: Grid, recvLeft: Grid, recvRight: Grid)
    requires |shape| == 3 && PositiveShape(shape) && rank < nproc && nproc >= 1
    requires shape[1] / nproc == shape[0] || (shape[0] == 1 && shape[1] / nproc >= 1)
    requires WellFormed([nproc * shape[0], shape[1], shape[2]], g)
    requires IsSlab([nproc * shape[0], shape[1], shape[2]], g, shape, rank, local)
    requires IsSlab([nproc * shape[0], shape[1], shape[2]], g, shape, LeftPeer(nproc, rank), recvLeft)
    requires IsSlab([nproc * shape[0], shape[1], shape[2]], g, shape, RightPeer(nproc, rank), recvRight)
    ensures ParallelStep(shape, nproc, local, recvLeft, recvRight).Ok?
    ensures IsSlab([nproc * shape[0], shape[1], shape[2]],
                   GlobalAverage([nproc * shape[0], shape[1], shape[2]], g), shape, rank,
                   ParallelStep(shape, nproc, local, recvLeft, recvRight).value)
  {
    var gshape := [nproc * shape[0], shape[1], shape[2]];
    var r := ParallelStep(shape, nproc, local, recvLeft, recvRight).value;
    var avg := GlobalAverage(gshape, g);
    assert DownSliceStart(shape[1] / nproc, shape[0]) == shape[0];
    forall idx | idx in r
      ensures ToGlobal(rank, shape[0], idx) in avg && r[idx] == avg[ToGlobal(rank, shape[0], idx)]
    {
      ParallelEntry(nproc, rank, shape, g, local, recvLeft, recvRight, idx);
    }
  }

  /** The global average is Hermitian... */
  lemma GlobalAverageHermitian(gshape: Shape, g: Grid)
    requires WellFormed(gshape, g)
    ensures Hermitian(gshape, GlobalAverage(gshape, g))
  {
    var r := GlobalAverage(gshape, g);
    forall idx | idx in r && |idx| == |gshape|
      ensures Mirror(gshape, idx) in r && r[Mirror(gshape, idx)] == Conj(r[idx])
    {
      MirrorInBounds(gshape, idx);
    }
  }

  lemma AverageSelf(x: Complex)
    ensures Average(x, x) == x
  {
  }

  lemma GlobalAverageEntry(gshape: Shape, g: Grid, idx: Index)
    requires WellFormed(gshape, g) && Hermitian(gshape, g) && idx in g
    ensures GlobalAverage(gshape, g)[idx] == g[idx]
  {
    MirrorInBounds(gshape, idx);
    ConjInvolutive(g[idx]);
    AverageSelf(g[idx]);
  }

  /** ... and leaves a Hermitian array unchanged, so on symmetric input the
      parallel and the serial enforcer agree slab by slab. */
  lemma GlobalAverageOfHermitian(gshape: Shape, g: Grid)
    requires PositiveShape(gshape) && WellFormed(gshape, g) && Hermitian(gshape, g)
    requires forall k :: 0 <= k < |gshape| ==> gshape[k] % 2 == 0
    ensures GlobalAverage(gshape, g) == g
    ensures Hermitianize.EnforceHermitian(gshape, g) == Ok(g)
  {
    var r := GlobalAverage(gshape, g);
    forall idx | idx in g ensures r[idx] == g[idx] {
      GlobalAverageEntry(gshape, g, idx);
    }
    MapsEqual(gshape, r, g);
    HermitianProofs.EnforceHermitianIdempotent(gshape, g);
  }
}
