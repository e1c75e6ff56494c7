/** The tabulated sound-speed lookup `cs2_at` of the cosmology physics
    classes (physics.py:932-957, repeated verbatim at 1092-1117): a
    hand-written bisection over the scale-factor table `_cs2_a` that returns
    the matching entry of `_cs2_values`. */
module SoundSpeed {
  import opened Results

  /** `init_cs2(a, cs2)` stores both lists as given; nothing ties their
      lengths together. */
  datatype Cs2Table = Cs2Table(scale: seq<real>, values: seq<real>)

  function InitCs2(a: seq<real>, cs2: seq<real>): Cs2Table {
    Cs2Table(a, cs2)
  }

  /** `int(ceil(d / 2.))` for the non-negative differences the loop takes. */
  function CeilHalf(d: nat): (r: nat)
    ensures d <= 2 * r <= d + 1
  {
    (d + 1) / 2
  }

  /** The loop variables `lower`, `upper`, `i`. */
  datatype Probe = Probe(lower: int, upper: int, i: int)

  function Start(n: nat): Probe {
    Probe(0, n, 0)
  }

  /** A state the loop can be in at the top of an iteration. */
  predicate Reach(n: nat, p: Probe) {
    0 <= p.lower <= p.i < p.upper <= n
  }

  /** Termination measure: the bracket shrinks, or `i` leaves `lower`. */
  function Measure(p: Probe): int {
    2 * (p.upper - p.lower) + (if p.i == p.lower then 1 else 0)
  }

  /** Neither exit test fires. */
  predicate Continues(n: nat, q: Probe) {
    q.i != n && q.lower < q.upper - 1
  }

  /** One pass through the `if`/`elif`; an entry equal to `a` moves nothing. */
  function Step(t: seq<real>, a: real, p: Probe): (q: Probe)
    requires Reach(|t|, p)
    ensures 0 <= q.lower <= q.i <= q.upper <= |t|
    ensures Continues(|t|, q) ==> Reach(|t|, q)
    ensures a != t[p.i] && Continues(|t|, q) ==> Measure(q) < Measure(p)
    ensures a == t[p.i] ==> q == p
  {
    if a > t[p.i] then Probe(p.i, p.upper, p.i + CeilHalf(p.upper - p.i))
    else if a < t[p.i] then Probe(p.lower, p.i, p.i - CeilHalf(p.i - p.lower))
    else p
  }

  /** What `cs2_at` returns: `_cs2_values[-1]` or `_cs2_values[j]`. */
  datatype Outcome = Last | At(j: nat)

  function Exited(n: nat, q: Probe): (o: Outcome)
    requires 0 <= q.lower <= q.i <= q.upper <= n && !Continues(n, q)
    ensures o.At? ==> o.j < n
  {
    if q.i == n then Last else At(q.i)
  }

  function ValueAt(values: seq<real>, o: Outcome): Result<real> {
    match o
    case Last => PyAt(values, -1)
    case At(j) => PyAt(values, j)
  }

  /** The loop from state `p`, for a value that is not an entry of the
      table: then every pass makes progress and the loop returns. */
  function Search(t: seq<real>, a: real, p: Probe): (o: Outcome)
    requires a !in t && Reach(|t|, p)
    ensures o.At? ==> o.j < |t|
    decreases Measure(p)
  {
    var q := Step(t, a, p);
    if Continues(|t|, q) then Search(t, a, q) else Exited(|t|, q)
  }

  // ---------------------------------------------------------------------
  // What the search finds in an ascending table
  // ---------------------------------------------------------------------

  predicate Ascending(t: seq<real>) {
    forall j, k :: 0 <= j < k < |t| ==> t[j] < t[k]
  }

  /** The entries `a` falls between: `Last` only above the whole table;
      `At(j)` with `a` just below entry `j` (or below the whole table at
      `j == 0`), or just above entry `j`. */
  predicate Brackets(t: seq<real>, a: real, o: Outcome) {
    match o
    case Last => |t| > 0 && t[|t| - 1] < a
    case At(j) =>
      j < |t| &&
      ((a < t[j] && (j == 0 || t[j - 1] < a)) || (t[j] < a && j + 1 < |t| && a < t[j + 1]))
  }

  /** The loop invariant that makes the bracket: `lower` is below `a` unless
      it never moved, and `upper` is above `a` unless it never moved. */
  predicate Bracketed(t: seq<real>, a: real, p: Probe)
    requires Reach(|t|, p)
  {
    (t[p.lower] < a || (p.lower == 0 && p.i == 0))
    && (p.upper == |t| || a < t[p.upper])
  }

  /** A pass keeps the invariant, and if the loop then returns, it returns
      a bracketing entry. */
  lemma StepBrackets(t: seq<real>, a: real, p: Probe)
    requires a !in t && Reach(|t|, p) && Ascending(t) && Bracketed(t, a, p)
    ensures Continues(|t|, Step(t, a, p)) ==> Bracketed(t, a, Step(t, a, p))
    ensures !Continues(|t|, Step(t, a, p)) ==> Brackets(t, a, Exited(|t|, Step(t, a, p)))
  {
    var n := |t|;
    var q := Step(t, a, p);
    assert a != t[p.i];
    if a > t[p.i] {
      if !Continues(n, q) && q.i != n {
        assert q.upper == p.i + 1 < n;
      }
    } else {
      if !Continues(n, q) && t[p.lower] < a {
        assert p.lower != p.i;
      }
    }
  }

  /** In an ascending table the result brackets `a`: `Last` exactly when
      `a` is above the last entry, `At(0)` when it is below the first. */
  lemma {:induction false} SearchBrackets(t: seq<real>, a: real, p: Probe)
    requires a !in t && Reach(|t|, p) && Ascending(t) && Bracketed(t, a, p)
    ensures Brackets(t, a, Search(t, a, p))
    decreases Measure(p)
  {
    StepBrackets(t, a, p);
    var q := Step(t, a, p);
    if Continues(|t|, q) {
      SearchBrackets(t, a, q);
    }
  }

  /** `Brackets` pins down the ends of the table. */
  lemma BracketsAtEnds(t: seq<real>, a: real, o: Outcome)
    requires Ascending(t) && |t| > 0 && Brackets(t, a, o)
    ensures o == Last <==> t[|t| - 1] < a
    ensures a < t[0] ==> o == At(0)
  {
  }

  /** The lookup from the start, on an ascending table and a value that is
      not an entry: it brackets `a`, returns the last value exactly when
      `a` is above the whole table, and the first when `a` is below it. */
  lemma LookupBrackets(t: seq<real>, a: real)
    requires |t| > 0 && a !in t && Ascending(t)
    ensures Brackets(t, a, Search(t, a, Start(|t|)))
    ensures Search(t, a, Start(|t|)) == Last <==> t[|t| - 1] < a
    ensures a < t[0] ==> Search(t, a, Start(|t|)) == At(0)
  {
    SearchBrackets(t, a, Start(|t|));
    BracketsAtEnds(t, a, Search(t, a, Start(|t|)));
  }

  /** The docstring promises the nearest entry, but the search can stop at
      the far side of the bracket: for the table `[0, 10, 11]` and `a = 9`
      it returns entry 0, nine away, not entry 1, one away. */
  lemma NotNearest()
    ensures Search([0.0, 10.0, 11.0], 9.0, Start(3)) == At(0)
  {
    var t := [0.0, 10.0, 11.0];
    assert Step(t, 9.0, Start(3)) == Probe(0, 3, 2);
    assert Step(t, 9.0, Probe(0, 3, 2)) == Probe(0, 2, 1);
    assert Step(t, 9.0, Probe(0, 2, 1)) == Probe(0, 1, 0);
  }

  // ---------------------------------------------------------------------
  // The loop as written
  // ---------------------------------------------------------------------

  /** The state after at most `fuel` passes: still in the loop, or returned. */
  datatype Run = Running(p: Probe) | Returned(o: Outcome)

  function RunFor(t: seq<real>, a: real, p: Probe, fuel: nat): Run
    requires Reach(|t|, p)
    decreases fuel
  {
    if fuel == 0 then Running(p)
    else
      var q := Step(t, a, p);
      if Continues(|t|, q) then RunFor(t, a, q, fuel - 1) else Returned(Exited(|t|, q))
  }

  /** For a value that is not an entry the loop returns what `Search` says
      within `Measure` passes. */
  lemma {:induction false} RunReturnsSearch(t: seq<real>, a: real, p: Probe)
    requires a !in t && Reach(|t|, p)
    ensures Measure(p) > 0
    ensures RunFor(t, a, p, Measure(p)) == Returned(Search(t, a, p))
    decreases Measure(p)
  {
    var q := Step(t, a, p);
    if Continues(|t|, q) {
      RunReturnsSearch(t, a, q);
      RunForMore(t, a, q, Measure(q), Measure(p) - 1);
    }
  }

  /** Once returned, more passes change nothing. */
  lemma {:induction false} RunForMore(t: seq<real>, a: real, p: Probe, fuel: nat, more: nat)
    requires Reach(|t|, p) && fuel <= more && RunFor(t, a, p, fuel).Returned?
    ensures RunFor(t, a, p, more) == RunFor(t, a, p, fuel)
    decreases fuel
  {
    var q := Step(t, a, p);
    if Continues(|t|, q) {
      RunForMore(t, a, q, fuel - 1, more - 1);
    }
  }

  /** When `a` equals the first entry of a table of two or more, neither
      branch moves, neither exit test fires, and the loop never returns. */
  lemma {:induction false} NeverReturns(t: seq<real>, a: real, fuel: nat)
    requires |t| >= 2 && a == t[0]
    ensures RunFor(t, a, Start(|t|), fuel) == Running(Start(|t|))
  {
    if fuel > 0 {
      assert Step(t, a, Start(|t|)) == Start(|t|);
      NeverReturns(t, a, fuel - 1);
    }
  }

  /** `cs2_at(a)` as written, for a value that is not a table entry (the
      only values for which it returns).  An empty table raises on the
      first read; the value is read with Python indexing, so a values list
      shorter than the scale table raises too. */
  method Cs2At(table: Cs2Table, a: real) returns (o: Result<Outcome>, r: Result<real>)
    requires a !in table.scale
    ensures |table.scale| == 0 ==> o == Err(IndexError) && r == Err(IndexError)
    ensures |table.scale| > 0 ==> o == Ok(Search(table.scale, a, Start(|table.scale|)))
    ensures o.Ok? ==> r == ValueAt(table.values, o.value)
    ensures o.Ok? && o.value.At? ==> o.value.j < |table.scale|
  {
    var t := table.scale;
    var n := |t|;
    if n == 0 {
      return Err(IndexError), Err(IndexError);
    }
    var lower, upper, i := 0, n, 0;
    while true
      invariant Reach(n, Probe(lower, upper, i))
      invariant Search(t, a, Probe(lower, upper, i)) == Search(t, a, Start(n))
      decreases 2 * (upper - lower) + (if i == lower then 1 else 0)
    {
      ghost var p := Probe(lower, upper, i);
      if a > t[i] {
        lower := i;
        i := lower + CeilHalf(upper - lower);
      } else if a < t[i] {
        upper := i;
        i := upper - CeilHalf(upper - lower);
      }
      assert Probe(lower, upper, i) == Step(t, a, p);
      if i == n {
        o := Ok(Last);
        r := PyAt(table.values, -1);
        return;
      }
      if lower >= upper - 1 {
        o := Ok(At(i));
        r := PyAt(table.values, i);
        return;
      }
    }
  }

  // ---------------------------------------------------------------------
  // The loop with the equal case handled
  // ---------------------------------------------------------------------

  /** The loop with an exact hit returning its own entry, from state `p`:
      a probe equal to `a` ends the search, any other probe makes progress,
      so it returns on every input. */
  function FixedSearch(t: seq<real>, a: real, p: Probe): (o: Outcome)
    requires Reach(|t|, p)
    ensures o.At? ==> o.j < |t|
    decreases Measure(p)
  {
    if a == t[p.i] then At(p.i)
    else
      var q := Step(t, a, p);
      if Continues(|t|, q) then FixedSearch(t, a, q) else Exited(|t|, q)
  }

  /** Wherever the loop as written returns, after any number of passes, it
      returns what the fixed loop returns: an exact hit that moves nothing
      either exits at once with the same entry or spins for good. */
  lemma {:induction false} FixedAgrees(t: seq<real>, a: real, p: Probe, fuel: nat)
    requires Reach(|t|, p) && RunFor(t, a, p, fuel).Returned?
    ensures RunFor(t, a, p, fuel).o == FixedSearch(t, a, p)
    decreases fuel
  {
    var q := Step(t, a, p);
    if Continues(|t|, q) {
      FixedAgrees(t, a, q, fuel - 1);
      if a == t[p.i] {
        assert q == p;
      }
    }
  }

  /** Off the table entries the fixed loop is the loop as written. */
  lemma {:induction false} FixedSearchOffEntries(t: seq<real>, a: real, p: Probe)
    requires a !in t && Reach(|t|, p)
    ensures FixedSearch(t, a, p) == Search(t, a, p)
    decreases Measure(p)
  {
    var q := Step(t, a, p);
    if Continues(|t|, q) {
      FixedSearchOffEntries(t, a, q);
    }
  }

  /** On an ascending table holding `a`, the fixed loop stops at the entry
      equal to `a`: while the bracket holds, every missed probe continues. */
  lemma {:induction false} FixedSearchHits(t: seq<real>, a: real, p: Probe)
    requires Reach(|t|, p) && Ascending(t) && a in t && Bracketed(t, a, p)
    ensures FixedSearch(t, a, p).At? && t[FixedSearch(t, a, p).j] == a
    decreases Measure(p)
  {
    if a != t[p.i] {
      HitBracketed(t, a, p);
      FixedSearchHits(t, a, Step(t, a, p));
    }
  }

  /** `cs2_at` with an exact hit returning its own entry: it returns on
      every input, agrees with the loop as written wherever that returns
      (for every value, entry or not), and finds an entry equal to `a` in
      an ascending table. */
  method Cs2AtFixed(table: Cs2Table, a: real) returns (o: Result<Outcome>, r: Result<real>)
    ensures |table.scale| == 0 ==> o == Err(IndexError) && r == Err(IndexError)
    ensures o.Ok? ==> r == ValueAt(table.values, o.value)
    ensures o.Ok? && o.value.At? ==> o.value.j < |table.scale|
    ensures |table.scale| > 0 && a !in table.scale ==> o == Ok(Search(table.scale, a, Start(|table.scale|)))
    ensures |table.scale| > 0 ==> o == Ok(FixedSearch(table.scale, a, Start(|table.scale|)))
    ensures |table.scale| > 0 ==> forall fuel: nat :: RunFor(table.scale, a, Start(|table.scale|), fuel).Returned? ==>
      o == Ok(RunFor(table.scale, a, Start(|table.scale|), fuel).o)
    ensures o.Ok? && Ascending(table.scale) && a in table.scale ==>
      o.value.At? && table.scale[o.value.j] == a
  {
    var t := table.scale;
    var n := |t|;
    if n == 0 {
      return Err(IndexError), Err(IndexError);
    }
    forall fuel: nat | RunFor(t, a, Start(n), fuel).Returned?
      ensures RunFor(t, a, Start(n), fuel).o == FixedSearch(t, a, Start(n))
    {
      FixedAgrees(t, a, Start(n), fuel);
    }
    if a !in t {
      FixedSearchOffEntries(t, a, Start(n));
    }
    if Ascending(t) && a in t {
      FixedSearchHits(t, a, Start(n));
    }
    var lower, upper, i := 0, n, 0;
    while true
      invariant Reach(n, Probe(lower, upper, i))
      invariant FixedSearch(t, a, Probe(lower, upper, i)) == FixedSearch(t, a, Start(n))
      decreases 2 * (upper - lower) + (if i == lower then 1 else 0)
    {
      ghost var p := Probe(lower, upper, i);
      if a > t[i] {
        lower := i;
        i := lower + CeilHalf(upper - lower);
      } else if a < t[i] {
        upper := i;
        i := upper - CeilHalf(upper - lower);
      } else {
        o := Ok(At(i));
        r := PyAt(table.values, i);
        return;
      }
      assert Probe(lower, upper, i) == Step(t, a, p);
      if i == n {
        o := Ok(Last);
        r := PyAt(table.values, -1);
        return;
      }
      if lower >= upper - 1 {
        o := Ok(At(i));
        r := PyAt(table.values, i);
        return;
      }
    }
  }

  /** With `a` an entry of an ascending table and the probe missing it, a
      pass keeps the invariant and neither exit test fires: the loop can
      only return through the equal case. */
  lemma HitBracketed(t: seq<real>, a: real, p: Probe)
    requires Reach(|t|, p) && Ascending(t) && a in t && a != t[p.i] && Bracketed(t, a, p)
    ensures Continues(|t|, Step(t, a, p))
    ensures Bracketed(t, a, Step(t, a, p))
  {
    var e :| 0 <= e < |t| && t[e] == a;
    if a > t[p.i] {
      assert p.i < e;
    } else {
      assert e < p.i;
    }
  }
}
