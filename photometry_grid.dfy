/** The grid-lookup part of `loadPhotometryData` (plandb_methods.py:478-535):
    the snap-to-nearest axis interpolants, the removal of phase-angle rows
    holding a NaN before each spline fit, and the table of per-cell
    interpolants keyed by (metallicity, distance, cloud). The nested
    dictionaries of the source become one map keyed by the triple. */
module PhotometryGrid {
  import opened Wrappers
  import CloudLevel

  predicate StrictlyIncreasing(axis: seq<real>)
  {
    forall i, j :: 0 <= i < j < |axis| ==> axis[i] < axis[j]
  }

  function Dist(x: real, y: real): real
  {
    if x < y then y - x else x - y
  }

  /** The nearest axis value to an in-range query, scanning from index `i`;
      a query exactly halfway between two values takes the lower one. */
  function NearestFrom(axis: seq<real>, x: real, i: nat): (v: real)
    requires StrictlyIncreasing(axis) && i < |axis|
    requires i > 0 ==> (axis[i - 1] + axis[i]) / 2.0 < x
    ensures v in axis[i..]
    ensures forall j :: 0 <= j < |axis| ==> Dist(x, v) <= Dist(x, axis[j])
    ensures forall j :: 0 <= j < |axis| && axis[j] < v ==> Dist(x, v) < Dist(x, axis[j])
    decreases |axis| - i
  {
    if i == |axis| - 1 || x <= (axis[i] + axis[i + 1]) / 2.0 then axis[i]
    else NearestFrom(axis, x, i + 1)
  }

  /** `makeninterp(vals)(x)`: nearest-neighbour interpolation of the axis onto
      itself, with queries below or above the axis filled by its minimum or
      maximum. */
  function Snap(axis: seq<real>, x: real): (v: real)
    requires |axis| > 0 && StrictlyIncreasing(axis)
    ensures v in axis
    ensures x <= axis[0] ==> v == axis[0]
    ensures x >= axis[|axis| - 1] ==> v == axis[|axis| - 1]
    ensures forall j :: 0 <= j < |axis| ==> Dist(x, v) <= Dist(x, axis[j])
    ensures forall j :: 0 <= j < |axis| && axis[j] < v ==> Dist(x, v) < Dist(x, axis[j])
  {
    if x < axis[0] then axis[0]
    else if x > axis[|axis| - 1] then axis[|axis| - 1]
    else NearestFrom(axis, x, 0)
  }

  /** Every axis value snaps to itself, and snapping twice changes nothing. */
  lemma SnapFixesAxisValues(axis: seq<real>, x: real)
    requires |axis| > 0 && StrictlyIncreasing(axis)
    ensures forall j :: 0 <= j < |axis| ==> Snap(axis, axis[j]) == axis[j]
    ensures Snap(axis, Snap(axis, x)) == Snap(axis, x)
  {
    forall j | 0 <= j < |axis|
      ensures Snap(axis, axis[j]) == axis[j]
    {
      assert Dist(axis[j], Snap(axis, axis[j])) <= Dist(axis[j], axis[j]);
    }
  }

  /** A phase-angle row of one (metallicity, distance, cloud) cell: albedo per
      wavelength, `None` for NaN. */
  predicate RowHasNaN(row: seq<Option<real>>)
  {
    exists w :: 0 <= w < |row| && row[w].None?
  }

  /** `goodbetas`: the phase-angle indices from `i` on whose row holds no NaN. */
  function GoodBetasFrom(cell: seq<seq<Option<real>>>, i: nat): (good: seq<nat>)
    requires i <= |cell|
    ensures forall q :: 0 <= q < |good| ==> i <= good[q] < |cell| && !RowHasNaN(cell[good[q]])
    ensures forall b :: i <= b < |cell| && !RowHasNaN(cell[b]) ==> b in good
    ensures forall q, r :: 0 <= q < r < |good| ==> good[q] < good[r]
    decreases |cell| - i
  {
    if i == |cell| then []
    else if RowHasNaN(cell[i]) then GoodBetasFrom(cell, i + 1)
    else [i] + GoodBetasFrom(cell, i + 1)
  }

  /** The phase-angle rows kept for a cell's spline fit, ascending. */
  function GoodBetas(cell: seq<seq<Option<real>>>): seq<nat>
  {
    GoodBetasFrom(cell, 0)
  }

  /** The indices lo, lo + 1, ..., hi - 1. */
  function Range(lo: nat, hi: nat): seq<nat>
    requires lo <= hi
    decreases hi - lo
  {
    if lo == hi then [] else [lo] + Range(lo + 1, hi)
  }

  /** Without any NaN in the cell every row is kept, so the branch of the
      source that fits the whole cell agrees with the one that filters. */
  lemma {:induction false} NoNaNKeepsAllFrom(cell: seq<seq<Option<real>>>, i: nat)
    requires i <= |cell|
    requires forall b :: 0 <= b < |cell| ==> !RowHasNaN(cell[b])
    ensures GoodBetasFrom(cell, i) == Range(i, |cell|)
    decreases |cell| - i
  {
    if i < |cell| {
      NoNaNKeepsAllFrom(cell, i + 1);
    }
  }

  /** The data handed to one spline fit: phase angles and albedo rows. */
  datatype SplineFit = SplineFit(betas: seq<real>, rows: seq<seq<real>>)

  function Unwrap(row: seq<Option<real>>): (vals: seq<real>)
    requires !RowHasNaN(row)
    ensures |vals| == |row| && forall w :: 0 <= w < |row| ==> row[w] == Some(vals[w])
  {
    seq(|row|, w requires 0 <= w < |row| => row[w].value)
  }

  /** `RectBivariateSpline(betas[goodbetas], wavelns, data[goodbetas, :])`'s
      inputs: only NaN-free rows, each with its own phase angle. */
  function FitData(betas: seq<real>, cell: seq<seq<Option<real>>>): (fit: SplineFit)
    requires |betas| == |cell|
    ensures |fit.betas| == |fit.rows| == |GoodBetas(cell)|
    ensures forall q :: 0 <= q < |fit.rows| ==>
              var b := GoodBetas(cell)[q];
              b < |cell| && !RowHasNaN(cell[b]) && fit.betas[q] == betas[b] && fit.rows[q] == Unwrap(cell[b])
    ensures forall b :: 0 <= b < |cell| && !RowHasNaN(cell[b]) ==> betas[b] in fit.betas
    ensures StrictlyIncreasing(betas) ==> StrictlyIncreasing(fit.betas)
  {
    var good := GoodBetas(cell);
    var fit := SplineFit(seq(|good|, q requires 0 <= q < |good| => betas[good[q]]),
                         seq(|good|, q requires 0 <= q < |good| => Unwrap(cell[good[q]])));
    assert StrictlyIncreasing(betas) ==> StrictlyIncreasing(fit.betas) by {
      if StrictlyIncreasing(betas) {
        forall q, r | 0 <= q < r < |fit.betas|
          ensures fit.betas[q] < fit.betas[r]
        {
          assert good[q] < good[r];
        }
      }
    }
    forall b | 0 <= b < |cell| && !RowHasNaN(cell[b])
      ensures betas[b] in fit.betas
    {
      var q :| 0 <= q < |good| && good[q] == b;
      assert fit.betas[q] == betas[b];
    }
    fit
  }

  /** What the table stores per cell: the spline's input data and the
      wavelength row at phase-angle index 9 used by the quadrature
      interpolant (taken as is, NaN included). */
  datatype CellInterps = CellInterps(phot: SplineFit, quad: seq<Option<real>>)

  datatype GridKey = GridKey(fe: real, dist: real, cloud: real)

  /** The albedo cells, indexed by metallicity, distance and cloud index. */
  type Cells = (nat, nat, nat) -> seq<seq<Option<real>>>

  function Interps(betas: seq<real>, cell: seq<seq<Option<real>>>): CellInterps
    requires |betas| == |cell| && |cell| > 9
  {
    CellInterps(FitData(betas, cell), cell[9])
  }

  ghost predicate WellShaped(betas: seq<real>, cells: Cells)
  {
    |betas| > 9 && forall i, j, k :: |cells(i, j, k)| == |betas|
  }

  /** The table covers exactly the grid. */
  ghost predicate CoversGrid(table: map<GridKey, CellInterps>, fes: seq<real>, dists: seq<real>,
                             clouds: seq<real>)
  {
    forall key :: key in table <==> key.fe in fes && key.dist in dists && key.cloud in clouds
  }

  /** The entry for grid cell (i, j, k) is present and built from that cell. */
  ghost predicate HasEntry(table: map<GridKey, CellInterps>, fes: seq<real>, dists: seq<real>,
                           clouds: seq<real>, betas: seq<real>, cells: Cells, i: nat, j: nat, k: nat)
    requires i < |fes| && j < |dists| && k < |clouds| && WellShaped(betas, cells)
  {
    var key := GridKey(fes[i], dists[j], clouds[k]);
    key in table && table[key] == Interps(betas, cells(i, j, k))
  }

  /** Adding the entry of another cell keeps an entry. */
  lemma EntryKept(table: map<GridKey, CellInterps>, fes: seq<real>, dists: seq<real>,
                  clouds: seq<real>, betas: seq<real>, cells: Cells,
                  a: nat, b: nat, c: nat, i: nat, j: nat, k: nat)
    requires StrictlyIncreasing(fes) && StrictlyIncreasing(dists) && StrictlyIncreasing(clouds)
    requires WellShaped(betas, cells)
    requires a < |fes| && b < |dists| && c < |clouds| && i < |fes| && j < |dists| && k < |clouds|
    requires (a, b, c) != (i, j, k)
    requires HasEntry(table, fes, dists, clouds, betas, cells, a, b, c)
    ensures HasEntry(table[GridKey(fes[i], dists[j], clouds[k]) := Interps(betas, cells(i, j, k))],
                     fes, dists, clouds, betas, cells, a, b, c)
  {
    assert a != i ==> fes[a] != fes[i];
    assert b != j ==> dists[b] != dists[j];
    assert c != k ==> clouds[c] != clouds[k];
  }

  /** The triple loop building `photinterps2` and `quadinterps`. */
  method BuildInterpolants(fes: seq<real>, dists: seq<real>, clouds: seq<real>,
                           betas: seq<real>, cells: Cells)
    returns (table: map<GridKey, CellInterps>)
    requires StrictlyIncreasing(fes) && StrictlyIncreasing(dists) && StrictlyIncreasing(clouds)
    requires WellShaped(betas, cells)
    ensures CoversGrid(table, fes, dists, clouds)
    ensures forall i, j, k :: 0 <= i < |fes| && 0 <= j < |dists| && 0 <= k < |clouds| ==>
              HasEntry(table, fes, dists, clouds, betas, cells, i, j, k)
  {
    table := map[];
    var i := 0;
    while i < |fes|
      invariant 0 <= i <= |fes|
      invariant forall key :: key in table ==> key.fe in fes && key.dist in dists && key.cloud in clouds
      invariant forall a, b, c :: 0 <= a < i && 0 <= b < |dists| && 0 <= c < |clouds| ==>
                  HasEntry(table, fes, dists, clouds, betas, cells, a, b, c)
    {
      var j := 0;
      while j < |dists|
        invariant 0 <= j <= |dists|
        invariant forall key :: key in table ==> key.fe in fes && key.dist in dists && key.cloud in clouds
        invariant forall a, b, c :: 0 <= a < i && 0 <= b < |dists| && 0 <= c < |clouds| ==>
                    HasEntry(table, fes, dists, clouds, betas, cells, a, b, c)
        invariant forall b, c :: 0 <= b < j && 0 <= c < |clouds| ==>
                    HasEntry(table, fes, dists, clouds, betas, cells, i, b, c)
      {
        var k := 0;
        while k < |clouds|
          invariant 0 <= k <= |clouds|
          invariant forall key :: key in table ==> key.fe in fes && key.dist in dists && key.cloud in clouds
          invariant forall a, b, c :: 0 <= a < i && 0 <= b < |dists| && 0 <= c < |clouds| ==>
                      HasEntry(table, fes, dists, clouds, betas, cells, a, b, c)
          invariant forall b, c :: 0 <= b < j && 0 <= c < |clouds| ==>
                      HasEntry(table, fes, dists, clouds, betas, cells, i, b, c)
          invariant forall c :: 0 <= c < k ==> HasEntry(table, fes, dists, clouds, betas, cells, i, j, c)
        {
          ghost var prev := table;
          table := table[GridKey(fes[i], dists[j], clouds[k]) := Interps(betas, cells(i, j, k))];
          forall a, b, c | 0 <= a < i && 0 <= b < |dists| && 0 <= c < |clouds|
            ensures HasEntry(table, fes, dists, clouds, betas, cells, a, b, c)
          {
            EntryKept(prev, fes, dists, clouds, betas, cells, a, b, c, i, j, k);
          }
          forall b, c | 0 <= b < j && 0 <= c < |clouds|
            ensures HasEntry(table, fes, dists, clouds, betas, cells, i, b, c)
          {
            EntryKept(prev, fes, dists, clouds, betas, cells, i, b, c, i, j, k);
          }
          forall c | 0 <= c < k
            ensures HasEntry(table, fes, dists, clouds, betas, cells, i, j, c)
          {
            EntryKept(prev, fes, dists, clouds, betas, cells, i, j, c, i, j, k);
          }
          k := k + 1;
        }
        j := j + 1;
      }
      i := i + 1;
    }
    forall key: GridKey | key.fe in fes && key.dist in dists && key.cloud in clouds
      ensures key in table
    {
      var a :| 0 <= a < |fes| && fes[a] == key.fe;
      var b :| 0 <= b < |dists| && dists[b] == key.dist;
      var c :| 0 <= c < |clouds| && clouds[c] == key.cloud;
      assert HasEntry(table, fes, dists, clouds, betas, cells, a, b, c);
    }
  }

  /** A lookup through the snapped metallicity and distance never misses:
      the snapped values are grid values (plandb_methods.py:615, 751). */
  lemma SnappedLookupDefined(table: map<GridKey, CellInterps>, fes: seq<real>, dists: seq<real>,
                             clouds: seq<real>, fe: real, d: real, c: real)
    requires |fes| > 0 && StrictlyIncreasing(fes) && |dists| > 0 && StrictlyIncreasing(dists)
    requires CoversGrid(table, fes, dists, clouds) && c in clouds
    ensures GridKey(Snap(fes, fe), Snap(dists, d), c) in table
  {
  }

  /** In the completeness engine the cloud key is a sampled fsed level
      (plandb_methods.py:1101); when the grid's cloud axis holds all eight
      levels, that lookup never misses either. */
  lemma SampledCloudLookupDefined(table: map<GridKey, CellInterps>, fes: seq<real>,
                                  dists: seq<real>, clouds: seq<real>, fe: real, d: real, num: real)
    requires |fes| > 0 && StrictlyIncreasing(fes) && |dists| > 0 && StrictlyIncreasing(dists)
    requires CoversGrid(table, fes, dists, clouds)
    requires forall v :: v in CloudLevel.FsedValues ==> v in clouds
    ensures GridKey(Snap(fes, fe), Snap(dists, d), CloudLevel.GetFsed(num)) in table
  {
    SnappedLookupDefined(table, fes, dists, clouds, fe, d, CloudLevel.GetFsed(num));
  }
}
