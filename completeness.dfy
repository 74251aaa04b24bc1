/** The deterministic skeleton of the completeness engine
    `calcPlanetCompleteness` (plandb_methods.py:940-1140): target
    pre-selection, the fixed working-angle and Δmag bins, accumulation of the
    interior of each iteration's 2-D histogram, the per-iteration detected
    fraction, the running mean with its relative change, the three-way
    stopping rule, and normalisation of the histogram of a target whose
    completeness is non-zero.

    The random draws and the orbit and photometry physics are inputs: each
    iteration is given as its samples' working angle, Δmag and the contrast
    curve's Δmag limit at that angle, each `None` when NaN. */
module Completeness {
  import opened Wrappers

  /** The instrument's angular limits in mas (`minangsep`, `maxangsep`;
      150 and 450 by default). */
  datatype Limits = Limits(minAng: int, maxAng: int)
  {
    predicate Valid() { minAng <= maxAng }
  }

  /** Number of 0.1-mag Δmag bins in [0, 26). */
  const DMagBins: nat := 260

  /** `WAbins0 = np.arange(minangsep, maxangsep + 1, 1)`. */
  function WAEdges(g: Limits): (e: seq<real>)
    requires g.Valid()
    ensures |e| == g.maxAng - g.minAng + 1
  {
    seq(g.maxAng - g.minAng + 1, i => (g.minAng + i) as real)
  }

  /** `dMagbins0 = np.arange(0, 26.1, 0.1)`, as exact tenths. */
  function DMagEdges(): (e: seq<real>)
    ensures |e| == DMagBins + 1
  {
    seq(DMagBins + 1, j => j as real / 10.0)
  }

  /** Interior working-angle bins: the histogram has two catch-all bins,
      below `minangsep` and above `maxangsep`, which are sliced off. */
  function WABins(g: Limits): nat
    requires g.Valid()
  {
    g.maxAng - g.minAng
  }

  /** Cells of `h`, stored row-major (working angle, then Δmag), as
      `h.flatten()` lays them out. */
  function CellCount(g: Limits): nat
    requires g.Valid()
  {
    WABins(g) * DMagBins
  }

  /** One Monte-Carlo sample after the physics. */
  datatype Sample = Sample(wa: Option<real>, dMag: Option<real>, dMagLim: Option<real>)

  /** The sample lands in an interior cell of the histogram. */
  predicate InInterior(g: Limits, s: Sample)
  {
    s.wa.Some? && s.dMag.Some?
    && g.minAng as real <= s.wa.value < g.maxAng as real
    && 0.0 <= s.dMag.value < 26.0
  }

  /** The interior cell of a sample, if any. */
  function CellOf(g: Limits, s: Sample): (c: Option<nat>)
    requires g.Valid()
    ensures c.Some? <==> InInterior(g, s)
    ensures c.Some? ==> c.value < CellCount(g)
    ensures c.Some? ==> var i, j := c.value / DMagBins, c.value % DMagBins;
              && WAEdges(g)[i] <= s.wa.value < WAEdges(g)[i + 1]
              && DMagEdges()[j] <= s.dMag.value < DMagEdges()[j + 1]
  {
    if InInterior(g, s) then
      var i := (s.wa.value - g.minAng as real).Floor;
      var j := (s.dMag.value * 10.0).Floor;
      assert 0 <= i < WABins(g) && 0 <= j < DMagBins;
      assert (i * DMagBins + j) / DMagBins == i && (i * DMagBins + j) % DMagBins == j;
      Some(i * DMagBins + j)
    else None
  }

  function Zeros(n: nat): (z: seq<nat>)
    ensures |z| == n && forall i :: 0 <= i < n ==> z[i] == 0
  {
    seq(n, _ => 0)
  }

  /** `np.histogram2d(WA, dMag, bins=(WAbins, dMagbins))[0][1:-1, 0:-1]`,
      built one sample at a time. */
  function Histogram(g: Limits, batch: seq<Sample>): (h: seq<nat>)
    requires g.Valid()
    ensures |h| == CellCount(g)
  {
    if batch == [] then Zeros(CellCount(g))
    else
      var h0 := Histogram(g, batch[..|batch| - 1]);
      match CellOf(g, batch[|batch| - 1])
      case None => h0
      case Some(c) => h0[c := h0[c] + 1]
  }

  /** Number of samples whose cell is `c`. */
  function CountInCell(g: Limits, batch: seq<Sample>, c: nat): nat
    requires g.Valid()
  {
    if batch == [] then 0
    else CountInCell(g, batch[..|batch| - 1], c) + (if CellOf(g, batch[|batch| - 1]) == Some(c) then 1 else 0)
  }

  /** Number of samples in the interior of the histogram. */
  function InteriorCount(g: Limits, batch: seq<Sample>): (m: nat)
    ensures m <= |batch|
  {
    if batch == [] then 0
    else InteriorCount(g, batch[..|batch| - 1]) + (if InInterior(g, batch[|batch| - 1]) then 1 else 0)
  }

  /** Each cell of the histogram counts exactly the samples of that cell. */
  lemma {:induction false} HistogramCountsCells(g: Limits, batch: seq<Sample>, c: nat)
    requires g.Valid() && c < CellCount(g)
    ensures Histogram(g, batch)[c] == CountInCell(g, batch, c)
  {
    if batch != [] {
      HistogramCountsCells(g, batch[..|batch| - 1], c);
    }
  }

  function Sum(h: seq<nat>): nat
  {
    if h == [] then 0 else Sum(h[..|h| - 1]) + h[|h| - 1]
  }

  lemma {:induction false} SumZeros(n: nat)
    ensures Sum(Zeros(n)) == 0
  {
    if n > 0 {
      assert Zeros(n)[..n - 1] == Zeros(n - 1);
      SumZeros(n - 1);
    }
  }

  lemma {:induction false} SumIncrement(h: seq<nat>, c: nat)
    requires c < |h|
    ensures Sum(h[c := h[c] + 1]) == Sum(h) + 1
  {
    var h' := h[c := h[c] + 1];
    if c < |h| - 1 {
      assert h'[..|h| - 1] == h[..|h| - 1][c := h[c] + 1];
      SumIncrement(h[..|h| - 1], c);
    } else {
      assert h'[..|h| - 1] == h[..|h| - 1];
    }
  }

  /** An iteration adds to the interior exactly as many counts as it has
      samples there, so at most one count per sample. */
  lemma {:induction false} HistogramTotal(g: Limits, batch: seq<Sample>)
    requires g.Valid()
    ensures Sum(Histogram(g, batch)) == InteriorCount(g, batch) <= |batch|
  {
    if batch == [] {
      SumZeros(CellCount(g));
    } else {
      HistogramTotal(g, batch[..|batch| - 1]);
      var c := CellOf(g, batch[|batch| - 1]);
      if c.Some? {
        SumIncrement(Histogram(g, batch[..|batch| - 1]), c.value);
      }
    }
  }

  function AddSeqs(a: seq<nat>, b: seq<nat>): (r: seq<nat>)
    requires |a| == |b|
    ensures |r| == |a| && forall i :: 0 <= i < |a| ==> r[i] == a[i] + b[i]
  {
    seq(|a|, i requires 0 <= i < |a| => a[i] + b[i])
  }

  lemma {:induction false} SumAddSeqs(a: seq<nat>, b: seq<nat>)
    requires |a| == |b|
    ensures Sum(AddSeqs(a, b)) == Sum(a) + Sum(b)
  {
    if a != [] {
      var m := |a| - 1;
      assert AddSeqs(a, b)[..m] == AddSeqs(a[..m], b[..m]);
      SumAddSeqs(a[..m], b[..m]);
    }
  }

  /** `h` after the given iterations: the sum of their interior histograms. */
  function Accumulated(g: Limits, batches: seq<seq<Sample>>): (h: seq<nat>)
    requires g.Valid()
    ensures |h| == CellCount(g)
  {
    if batches == [] then Zeros(CellCount(g))
    else AddSeqs(Accumulated(g, batches[..|batches| - 1]), Histogram(g, batches[|batches| - 1]))
  }

  /** After k iterations of n samples, `h` holds at most n * k counts. */
  lemma {:induction false} AccumulatedTotal(g: Limits, n: nat, batches: seq<seq<Sample>>)
    requires g.Valid() && forall b :: b in batches ==> |b| == n
    ensures Sum(Accumulated(g, batches)) <= n * |batches|
  {
    if batches == [] {
      SumZeros(CellCount(g));
    } else {
      var m := |batches| - 1;
      var prefix, last := batches[..m], batches[m];
      assert forall b :: b in prefix ==> b in batches;
      assert last in batches;
      AccumulatedTotal(g, n, prefix);
      HistogramTotal(g, last);
      SumAddSeqs(Accumulated(g, prefix), Histogram(g, last));
      assert Sum(Accumulated(g, batches)) <= n * m + n;
      MulSucc(n, m);
    }
  }

  lemma MulSucc(n: nat, m: nat)
    ensures n * m + n == n * (m + 1)
  {
  }

  lemma MulPositive(n: nat, k: nat)
    requires n > 0 && k > 0
    ensures n * k > 0
  {
  }

  function SumR(xs: seq<real>): real
  {
    if xs == [] then 0.0 else SumR(xs[..|xs| - 1]) + xs[|xs| - 1]
  }

  /** `h / float(n * k)`. */
  function Normalize(h: seq<nat>, total: nat): (p: seq<real>)
    requires total > 0
    ensures |p| == |h| && forall i :: 0 <= i < |h| ==> p[i] == h[i] as real / total as real
    ensures forall i :: 0 <= i < |h| ==> p[i] >= 0.0
  {
    seq(|h|, i requires 0 <= i < |h| => h[i] as real / total as real)
  }

  lemma {:induction false} SumNormalize(h: seq<nat>, total: nat)
    requires total > 0
    ensures SumR(Normalize(h, total)) == Sum(h) as real / total as real
  {
    if h != [] {
      var m := |h| - 1;
      assert Normalize(h, total)[..m] == Normalize(h[..m], total);
      SumNormalize(h[..m], total);
      DivAdd(Sum(h[..m]), h[m], total);
    }
  }

  lemma DivAdd(a: nat, b: nat, d: nat)
    requires d > 0
    ensures a as real / d as real + b as real / d as real == (a + b) as real / d as real
  {
  }

  /** The retained histogram is a probability density over the interior
      cells: its entries sum to at most one. */
  lemma NormalizedHistogramAtMostOne(g: Limits, n: nat, batches: seq<seq<Sample>>)
    requires g.Valid() && n > 0 && |batches| > 0 && forall b :: b in batches ==> |b| == n
    ensures SumR(Normalize(Accumulated(g, batches), n * |batches|)) <= 1.0
  {
    var h, total := Accumulated(g, batches), n * |batches|;
    AccumulatedTotal(g, n, batches);
    MulPositive(n, |batches|);
    SumNormalize(h, total);
    DivAtMostOne(Sum(h), total);
  }

  lemma DivAtMostOne(a: nat, b: nat)
    requires 0 < b && a <= b
    ensures a as real / b as real <= 1.0
  {
  }

  /** A sample counts as detected: inside [minangsep, maxangsep] and no
      fainter than the contrast limit at its working angle. */
  predicate Detected(g: Limits, s: Sample)
  {
    s.wa.Some? && s.dMag.Some? && s.dMagLim.Some?
    && g.minAng as real <= s.wa.value <= g.maxAng as real
    && s.dMag.value <= s.dMagLim.value
  }

  /** The number of detected samples (`len(np.where(...)[0])`). */
  function DetectedCount(g: Limits, batch: seq<Sample>): (m: nat)
    ensures m <= |batch|
  {
    if batch == [] then 0
    else DetectedCount(g, batch[..|batch| - 1]) + (if Detected(g, batch[|batch| - 1]) then 1 else 0)
  }

  /** No sample is counted exactly when none is detected, and every sample
      exactly when all are. */
  lemma {:induction false} DetectedCountExtremes(g: Limits, batch: seq<Sample>)
    ensures DetectedCount(g, batch) == 0 <==> forall i :: 0 <= i < |batch| ==> !Detected(g, batch[i])
    ensures DetectedCount(g, batch) == |batch| <==> forall i :: 0 <= i < |batch| ==> Detected(g, batch[i])
  {
    if batch != [] {
      var m := |batch| - 1;
      DetectedCountExtremes(g, batch[..m]);
      assert forall i :: 0 <= i < m ==> batch[..m][i] == batch[i];
    }
  }

  /** `currc`: the detected fraction of one iteration's samples (the
      source's n is 10^6, so an empty iteration does not occur). */
  function Fraction(g: Limits, batch: seq<Sample>): (f: real)
    ensures 0.0 <= f <= 1.0
  {
    if batch == [] then 0.0 else DetectedCount(g, batch) as real / |batch| as real
  }

  function Fractions(g: Limits, batches: seq<seq<Sample>>): (fr: seq<real>)
    ensures |fr| == |batches|
    ensures forall i :: 0 <= i < |fr| ==> fr[i] == Fraction(g, batches[i])
    ensures forall i :: 0 <= i < |fr| ==> 0.0 <= fr[i] <= 1.0
  {
    if batches == [] then []
    else Fractions(g, batches[..|batches| - 1]) + [Fraction(g, batches[|batches| - 1])]
  }

  function Mean(xs: seq<real>): real
    requires |xs| > 0
  {
    SumR(xs) / |xs| as real
  }

  /** The running-mean update of the source, ((k - 1) * c + currc) / k,
      turns the mean of k - 1 fractions into the mean of k. */
  lemma MeanStep(xs: seq<real>, x: real)
    requires |xs| > 0
    ensures Mean(xs + [x]) == (|xs| as real * Mean(xs) + x) / (|xs| + 1) as real
  {
    assert (xs + [x])[..|xs|] == xs;
    var k := |xs| as real;
    assert k * (SumR(xs) / k) == SumR(xs);
  }

  lemma {:induction false} SumRBounds(xs: seq<real>)
    requires forall i :: 0 <= i < |xs| ==> 0.0 <= xs[i] <= 1.0
    ensures 0.0 <= SumR(xs) <= |xs| as real
  {
    if xs != [] {
      SumRBounds(xs[..|xs| - 1]);
    }
  }

  /** The running estimate stays a probability. */
  lemma MeanBounds(xs: seq<real>)
    requires |xs| > 0 && forall i :: 0 <= i < |xs| ==> 0.0 <= xs[i] <= 1.0
    ensures 0.0 <= Mean(xs) <= 1.0
  {
    SumRBounds(xs);
  }

  /** `pdiff`: relative change of the estimate, forced to 1 when it is 0. */
  function PDiff(c: real, cprev: real): real
  {
    if c == 0.0 then 1.0 else (if c < cprev then cprev - c else c - cprev) / c
  }

  /** For a positive estimate, `pdiff` is within 1e-4 exactly when the
      estimate moved by at most 1e-4 of itself; a zero estimate never
      counts as settled. */
  lemma PDiffSettled(c: real, cprev: real)
    requires c >= 0.0
    ensures c == 0.0 ==> PDiff(c, cprev) > 0.0001
    ensures c > 0.0 ==> 0.0 <= PDiff(c, cprev)
    ensures c > 0.0 ==> (PDiff(c, cprev) <= 0.0001 <==> -0.0001 * c <= c - cprev <= 0.0001 * c)
  {
    if c > 0.0 {
      var d := if c < cprev then cprev - c else c - cprev;
      assert PDiff(c, cprev) * c == d;
    }
  }

  /** The loop ends after iteration k when the estimate is zero after more
      than two iterations, below 1e-5 after more than 25, or has settled to a
      relative change of at most 1e-4 after at least three. */
  predicate StopsAfter(k: nat, c: real, cprev: real)
  {
    (c == 0.0 && k > 2) || (c < 0.00001 && k > 25) || (PDiff(c, cprev) <= 0.0001 && k >= 3)
  }

  /** The loop never stops before three iterations, and with a zero
      estimate it stops exactly from the third on. */
  lemma StopsAfterThree(k: nat, c: real, cprev: real)
    ensures StopsAfter(k, c, cprev) ==> k >= 3
    ensures c == 0.0 ==> (StopsAfter(k, c, cprev) <==> k > 2)
  {
  }

  /** The estimate before iteration k (`cprev`): 0 before the first. */
  function Previous(fr: seq<real>, k: nat): real
    requires 1 <= k <= |fr|
  {
    if k == 1 then 0.0 else Mean(fr[..k - 1])
  }

  predicate StopAt(fr: seq<real>, k: nat)
    requires 1 <= k <= |fr|
  {
    StopsAfter(k, Mean(fr[..k]), Previous(fr, k))
  }

  /** The first iteration at or after `from` after which the loop stops,
      or |fr| + 1 when none of the given iterations stops it. */
  function StopIndex(fr: seq<real>, from: nat): (k: nat)
    requires 1 <= from <= |fr| + 1
    ensures from <= k <= |fr| + 1
    ensures k <= |fr| ==> StopAt(fr, k)
    ensures forall q :: from <= q < k && q <= |fr| ==> !StopAt(fr, q)
    decreases |fr| + 1 - from
  {
    if from == |fr| + 1 then from
    else if StopAt(fr, from) then from
    else StopIndex(fr, from + 1)
  }

  /** What the loop yields for a target: the estimate it stops with, or
      `None` when the given iterations never satisfy the stopping rule. */
  function Outcome(g: Limits, batches: seq<seq<Sample>>): (o: Option<real>)
  {
    var fr := Fractions(g, batches);
    var k := StopIndex(fr, 1);
    if k <= |fr| then Some(Mean(fr[..k])) else None
  }

  /** The stopping iteration is determined: the first one satisfying the rule. */
  lemma {:induction false} StopIndexIsFirst(fr: seq<real>, from: nat, k: nat)
    requires 1 <= from <= k <= |fr| + 1
    requires k <= |fr| ==> StopAt(fr, k)
    requires forall q :: from <= q < k ==> !StopAt(fr, q)
    ensures StopIndex(fr, from) == k
    decreases k - from
  {
    if from < k {
      StopIndexIsFirst(fr, from + 1, k);
    }
  }

  /** A run that stopped at the first iteration satisfying the rule yields
      its estimate; one that exhausted its draws without stopping yields
      `None`. */
  lemma OutcomeOfRun(g: Limits, batches: seq<seq<Sample>>, stopped: bool, k: nat, c: real)
    requires k <= |batches|
    requires c == if k == 0 then 0.0 else Mean(Fractions(g, batches)[..k])
    requires stopped ==> 1 <= k && StopAt(Fractions(g, batches), k)
    requires forall q :: 1 <= q < k ==> !StopAt(Fractions(g, batches), q)
    requires !stopped ==> k == |batches| && (k > 0 ==> !StopAt(Fractions(g, batches), k))
    ensures Outcome(g, batches) == if stopped then Some(c) else None
  {
    var fr := Fractions(g, batches);
    if stopped {
      StopIndexIsFirst(fr, 1, k);
    } else {
      StopIndexIsFirst(fr, 1, k + 1);
    }
  }

  /** A target that is never detected stops after exactly three iterations. */
  lemma ZeroTargetStopsAtThree(fr: seq<real>)
    requires |fr| >= 3 && fr[0] == 0.0 && fr[1] == 0.0 && fr[2] == 0.0
    ensures !StopAt(fr, 1) && !StopAt(fr, 2) && StopAt(fr, 3)
  {
    assert fr[..3][..2] == fr[..2] && fr[..2][..1] == fr[..1] && fr[..1][..0] == [];
    assert SumR(fr[..1]) == 0.0;
    assert SumR(fr[..2]) == 0.0;
    assert SumR(fr[..3]) == 0.0;
  }

  /** Splitting off the newest fraction of a prefix. */
  lemma RunningMean(fr: seq<real>, k: nat, cprev: real, currc: real)
    requires 2 <= k <= |fr| && cprev == Mean(fr[..k - 1]) && currc == fr[k - 1]
    ensures ((k - 1) as real * cprev + currc) / k as real == Mean(fr[..k])
  {
    assert fr[..k] == fr[..k - 1] + [fr[k - 1]];
    MeanStep(fr[..k - 1], fr[k - 1]);
  }

  /** One pass of the loop body keeps `c` the mean of the fractions so far
      and `cprev` the previous one. */
  lemma EstimateStep(fr: seq<real>, k: nat, cprev: real, c: real)
    requires 1 <= k <= |fr| && forall i :: 0 <= i < |fr| ==> 0.0 <= fr[i] <= 1.0
    requires cprev == if k == 1 then 0.0 else Mean(fr[..k - 1])
    requires c == if k == 1 then fr[0] else ((k - 1) as real * cprev + fr[k - 1]) / k as real
    ensures c == Mean(fr[..k]) && cprev == Previous(fr, k) && 0.0 <= c <= 1.0
  {
    if k == 1 {
      assert fr[..1][..0] == [];
      assert SumR(fr[..1]) == fr[0];
    } else {
      RunningMean(fr, k, cprev, fr[k - 1]);
    }
    MeanBounds(fr[..k]);
  }

  /** The loop's scalar state after k iterations: `c` is the mean of the
      first k fractions, `cprev` the estimate before the last one, `pdiff`
      their relative change, and no earlier iteration met the stopping rule. */
  ghost predicate Running(fr: seq<real>, k: nat, c: real, cprev: real, pdiff: real)
  {
    && k <= |fr| && 0.0 <= c <= 1.0
    && (k == 0 ==> c == 0.0 && pdiff == 1.0)
    && (k > 0 ==> c == Mean(fr[..k]) && cprev == Previous(fr, k) && pdiff == PDiff(c, cprev))
    && (forall q :: 1 <= q < k ==> !StopAt(fr, q))
  }

  /** A pass of the loop body, from k - 1 iterations to k, that did not
      start stopped keeps `Running`. */
  lemma RunningStep(fr: seq<real>, k: nat, c0: real, cprev0: real, pdiff0: real, currc: real, c: real, pdiff: real)
    requires forall i :: 0 <= i < |fr| ==> 0.0 <= fr[i] <= 1.0
    requires 1 <= k <= |fr| && Running(fr, k - 1, c0, cprev0, pdiff0)
    requires k > 1 ==> !(c0 == 0.0 && k - 1 > 2) && !(c0 < 0.00001 && k - 1 > 25) && (pdiff0 > 0.0001 || k - 1 < 3)
    requires currc == fr[k - 1]
    requires c == if k == 1 then currc else ((k - 1) as real * c0 + currc) / k as real
    requires pdiff == if c == 0.0 then 1.0 else (if c < c0 then c0 - c else c - c0) / c
    ensures Running(fr, k, c, c0, pdiff)
  {
    assert k > 1 ==> !StopAt(fr, k - 1);
    EstimateStep(fr, k, c0, c);
  }

  lemma AccumulatedStep(g: Limits, batches: seq<seq<Sample>>, k: nat)
    requires g.Valid() && k < |batches|
    ensures Accumulated(g, batches[..k + 1]) == AddSeqs(Accumulated(g, batches[..k]), Histogram(g, batches[k]))
  {
    assert batches[..k + 1][..k] == batches[..k];
  }

  /** `h += ...`: element-wise in-place addition. */
  method AddInto(h: array<nat>, add: seq<nat>)
    requires h.Length == |add|
    modifies h
    ensures h[..] == AddSeqs(old(h[..]), add)
  {
    var i := 0;
    while i < h.Length
      invariant 0 <= i <= h.Length
      invariant forall q :: 0 <= q < i ==> h[q] == old(h[q]) + add[q]
      invariant forall q :: i <= q < h.Length ==> h[q] == old(h[q])
    {
      h[i] := h[i] + add[i];
      i := i + 1;
    }
  }

  /** One target's convergence loop. The iterations are consumed from
      `batches`; `stopped` is false when they run out before the stopping
      rule fires (the source would keep drawing). `hist` is the normalised
      histogram, kept only when the loop stopped with c != 0. */
  method EstimateCompleteness(g: Limits, n: nat, batches: seq<seq<Sample>>)
    returns (stopped: bool, k: nat, c: real, hist: Option<seq<real>>)
    requires g.Valid() && n > 0 && forall b :: b in batches ==> |b| == n
    ensures k <= |batches|
    ensures c == if k == 0 then 0.0 else Mean(Fractions(g, batches)[..k])
    ensures 0.0 <= c <= 1.0
    ensures stopped ==> 3 <= k && StopAt(Fractions(g, batches), k)
    ensures forall q :: 1 <= q < k ==> !StopAt(Fractions(g, batches), q)
    ensures !stopped ==> k == |batches| && (k > 0 ==> !StopAt(Fractions(g, batches), k))
    ensures hist == if stopped && c != 0.0 then Some(TargetHistogram(g, n, batches)) else None
    ensures Outcome(g, batches) == if stopped then Some(c) else None
  {
    ghost var fr := Fractions(g, batches);
    var h := new nat[CellCount(g)](_ => 0);
    assert h[..] == Accumulated(g, batches[..0]);
    k := 0;
    c := 0.0;
    var cprev := 0.0;
    var pdiff := 1.0;
    var ranOut := false;
    while pdiff > 0.0001 || k < 3
      invariant k <= |batches| && h.Length == CellCount(g)
      invariant h[..] == Accumulated(g, batches[..k])
      invariant Running(fr, k, c, cprev, pdiff)
      invariant k > 0 ==> !(c == 0.0 && k > 2) && !(c < 0.00001 && k > 25)
      invariant !ranOut
      decreases |batches| - k
    {
      if k == |batches| {
        ranOut := true;
        break;
      }
      ghost var c0, cprev0, pdiff0 := c, cprev, pdiff;
      var batch := batches[k];
      assert batch in batches;
      AddInto(h, Histogram(g, batch));
      AccumulatedStep(g, batches, k);
      k := k + 1;
      var currc := DetectedCount(g, batch) as real / n as real;
      assert currc == Fraction(g, batch);
      cprev := c;
      if k == 1 {
        c := currc;
      } else {
        c := ((k - 1) as real * cprev + currc) / k as real;
      }
      if c == 0.0 {
        pdiff := 1.0;
      } else {
        pdiff := (if c < cprev then cprev - c else c - cprev) / c;
      }
      RunningStep(fr, k, c0, cprev0, pdiff0, currc, c, pdiff);
      if c == 0.0 && k > 2 {
        break;
      }
      if c < 0.00001 && k > 25 {
        break;
      }
    }
    stopped := !ranOut;
    OutcomeOfRun(g, batches, stopped, k, c);
    if stopped && c != 0.0 {
      StopIndexIsFirst(fr, 1, k);
      MulPositive(n, k);
      hist := Some(Normalize(h[..], n * k));
    } else {
      hist := None;
    }
  }

  /** The distances of one catalog target bounding its separations
      (`pl_minangsep`, `pl_maxangsep`), `None` for NaN. */
  datatype TargetRange = TargetRange(minAngSep: Option<real>, maxAngSep: Option<real>)

  /** Line 957: the target's separation range overlaps the instrument's. */
  predicate Observable(g: Limits, t: TargetRange)
  {
    t.maxAngSep.Some? && t.maxAngSep.value > g.minAng as real
    && t.minAngSep.Some? && t.minAngSep.value < g.maxAng as real
  }

  function PreselectFrom(g: Limits, ts: seq<TargetRange>, i: nat): (inds: seq<nat>)
    requires i <= |ts|
    ensures forall q :: 0 <= q < |inds| ==> i <= inds[q] < |ts|
    ensures forall q, r :: 0 <= q < r < |inds| ==> inds[q] < inds[r]
    ensures forall j :: i <= j < |ts| ==> (j in inds <==> Observable(g, ts[j]))
    decreases |ts| - i
  {
    if i == |ts| then []
    else if Observable(g, ts[i]) then [i] + PreselectFrom(g, ts, i + 1)
    else PreselectFrom(g, ts, i + 1)
  }

  /** `inds`: the targets whose completeness is computed, ascending. */
  function Preselect(g: Limits, ts: seq<TargetRange>): (inds: seq<nat>)
    ensures forall q, r :: 0 <= q < r < |inds| ==> inds[q] < inds[r]
    ensures forall q :: 0 <= q < |inds| ==> inds[q] < |ts|
    ensures forall j :: 0 <= j < |ts| ==> (j in inds <==> Observable(g, ts[j]))
  {
    PreselectFrom(g, ts, 0)
  }

  /** Target j is reported with completeness c. */
  ghost predicate Reported(g: Limits, targets: seq<TargetRange>, draws: seq<seq<seq<Sample>>>, j: nat, c: real)
    requires |draws| == |targets|
  {
    j < |targets| && Observable(g, targets[j]) && Outcome(g, draws[j]) == Some(c) && 0.0 < c <= 1.0
  }

  /** The histogram stored for a target, `h / float(n * k)`: the interior
      counts of the iterations up to the one the loop stops after, divided by
      n times their number (all zeros when the given iterations never stop). */
  function TargetHistogram(g: Limits, n: nat, batches: seq<seq<Sample>>): (h: seq<real>)
    requires g.Valid() && n > 0
    ensures |h| == CellCount(g)
  {
    var k := StopIndex(Fractions(g, batches), 1);
    if k <= |batches| then
      MulPositive(n, k);
      Normalize(Accumulated(g, batches[..k]), n * k)
    else seq(CellCount(g), _ => 0.0)
  }

  /** A stored histogram is a density over the interior cells: its entries
      are non-negative and sum to at most one. */
  lemma TargetHistogramIsDensity(g: Limits, n: nat, batches: seq<seq<Sample>>)
    requires g.Valid() && n > 0 && forall b :: b in batches ==> |b| == n
    ensures forall i :: 0 <= i < CellCount(g) ==> TargetHistogram(g, n, batches)[i] >= 0.0
    ensures SumR(TargetHistogram(g, n, batches)) <= 1.0
  {
    var k := StopIndex(Fractions(g, batches), 1);
    var h := TargetHistogram(g, n, batches);
    if k <= |batches| {
      var done := batches[..k];
      assert forall b :: b in done ==> b in batches;
      MulPositive(n, k);
      assert h == Normalize(Accumulated(g, done), n * k);
      NormalizedHistogramAtMostOne(g, n, done);
    } else {
      assert h == seq(CellCount(g), _ => 0.0);
      SumRZeros(CellCount(g));
    }
  }

  lemma {:induction false} SumRZeros(m: nat)
    ensures SumR(seq(m, _ => 0.0)) == 0.0
  {
    if m > 0 {
      assert seq(m, _ => 0.0)[..m - 1] == seq(m - 1, _ => 0.0);
      SumRZeros(m - 1);
    }
  }

  /** One target of the loop below: run it, and report whether it is kept
      (non-zero completeness) together with its estimate and normalised
      histogram. */
  method ProcessTarget(g: Limits, n: nat, batches: seq<seq<Sample>>) returns (keep: bool, c: real, h: seq<real>)
    requires g.Valid() && n > 0 && forall b :: b in batches ==> |b| == n
    requires Outcome(g, batches).Some?
    ensures keep <==> Outcome(g, batches) != Some(0.0)
    ensures keep ==> Outcome(g, batches) == Some(c) && 0.0 < c <= 1.0
    ensures keep ==> h == TargetHistogram(g, n, batches)
  {
    var stopped, k, est, hist := EstimateCompleteness(g, n, batches);
    keep, c := est != 0.0, est;
    if keep {
      h := hist.value;
    } else {
      h := [];
    }
  }

  /** Strictly increasing indexes. */
  predicate Ascending(xs: seq<nat>)
  {
    forall t, u :: 0 <= t < u < |xs| ==> xs[t] < xs[u]
  }

  /** The state of the target loop after the first i selected targets: every
      reported target is observable with its non-zero estimate, the reports
      are in target order and below the next target, every one of the first
      i with a non-zero estimate is reported, and every stored histogram is
      its target's normalised histogram. */
  ghost predicate Collected(g: Limits, n: nat, targets: seq<TargetRange>, draws: seq<seq<seq<Sample>>>,
                           inds: seq<nat>, i: nat, cs: seq<real>, goodinds: seq<nat>, hs: seq<seq<real>>)
    requires g.Valid() && n > 0 && |draws| == |targets|
    requires forall q :: 0 <= q < |inds| ==> inds[q] < |targets|
  {
    && i <= |inds| && |cs| == |goodinds| == |hs|
    && Ascending(goodinds)
    && (i < |inds| ==> forall t :: 0 <= t < |goodinds| ==> goodinds[t] < inds[i])
    && (forall t :: 0 <= t < |goodinds| ==> Reported(g, targets, draws, goodinds[t], cs[t]))
    && (forall q :: 0 <= q < i && Outcome(g, draws[inds[q]]) != Some(0.0) ==> inds[q] in goodinds)
    && (forall t :: 0 <= t < |hs| ==> goodinds[t] < |draws| && hs[t] == TargetHistogram(g, n, draws[goodinds[t]]))
  }

  lemma AppendAscending(xs: seq<nat>, x: nat)
    requires Ascending(xs) && forall t :: 0 <= t < |xs| ==> xs[t] < x
    ensures Ascending(xs + [x])
  {
    var ys := xs + [x];
    forall t, u | 0 <= t < u < |ys|
      ensures ys[t] < ys[u]
    {
      assert ys[t] == xs[t];
      if u < |xs| {
        assert ys[u] == xs[u];
      }
    }
  }

  lemma AppendReported(g: Limits, targets: seq<TargetRange>, draws: seq<seq<seq<Sample>>>,
                       cs: seq<real>, goodinds: seq<nat>, j: nat, c: real)
    requires |draws| == |targets|
    requires |cs| == |goodinds|
    requires forall t :: 0 <= t < |goodinds| ==> Reported(g, targets, draws, goodinds[t], cs[t])
    requires Reported(g, targets, draws, j, c)
    ensures forall t :: 0 <= t < |goodinds| + 1 ==> Reported(g, targets, draws, (goodinds + [j])[t], (cs + [c])[t])
  {
    forall t | 0 <= t < |goodinds| + 1
      ensures Reported(g, targets, draws, (goodinds + [j])[t], (cs + [c])[t])
    {
      if t < |goodinds| {
        assert (goodinds + [j])[t] == goodinds[t] && (cs + [c])[t] == cs[t];
      }
    }
  }

  lemma AppendHistogram(g: Limits, n: nat, draws: seq<seq<seq<Sample>>>, goodinds: seq<nat>,
                        hs: seq<seq<real>>, j: nat, h: seq<real>)
    requires g.Valid() && n > 0 && |goodinds| == |hs|
    requires forall t :: 0 <= t < |hs| ==> goodinds[t] < |draws| && hs[t] == TargetHistogram(g, n, draws[goodinds[t]])
    requires j < |draws| && h == TargetHistogram(g, n, draws[j])
    ensures forall t :: 0 <= t < |hs| + 1 ==>
              (goodinds + [j])[t] < |draws| && (hs + [h])[t] == TargetHistogram(g, n, draws[(goodinds + [j])[t]])
  {
    forall t | 0 <= t < |hs| + 1
      ensures (goodinds + [j])[t] < |draws| && (hs + [h])[t] == TargetHistogram(g, n, draws[(goodinds + [j])[t]])
    {
      if t < |hs| {
        assert (hs + [h])[t] == hs[t] && (goodinds + [j])[t] == goodinds[t];
      }
    }
  }

  /** Every one of the first i + 1 selected targets with a non-zero estimate
      is reported, once target i is reported when it has one. */
  lemma ExtendCoverage(g: Limits, draws: seq<seq<seq<Sample>>>, inds: seq<nat>, i: nat, goodinds: seq<nat>, goodinds': seq<nat>)
    requires i < |inds| && forall q :: 0 <= q < |inds| ==> inds[q] < |draws|
    requires forall q :: 0 <= q < i && Outcome(g, draws[inds[q]]) != Some(0.0) ==> inds[q] in goodinds
    requires forall x :: x in goodinds ==> x in goodinds'
    requires Outcome(g, draws[inds[i]]) != Some(0.0) ==> inds[i] in goodinds'
    ensures forall q :: 0 <= q < i + 1 && Outcome(g, draws[inds[q]]) != Some(0.0) ==> inds[q] in goodinds'
  {
    forall q | 0 <= q < i + 1 && Outcome(g, draws[inds[q]]) != Some(0.0)
      ensures inds[q] in goodinds'
    {
      if q < i {
        assert inds[q] in goodinds;
      }
    }
  }

  /** Processing the next selected target keeps `Collected`. */
  lemma CollectStep(g: Limits, n: nat, targets: seq<TargetRange>, draws: seq<seq<seq<Sample>>>,
                    inds: seq<nat>, i: nat, cs: seq<real>, goodinds: seq<nat>, hs: seq<seq<real>>,
                    keep: bool, c: real, h: seq<real>)
    requires g.Valid() && n > 0 && |draws| == |targets|
    requires inds == Preselect(g, targets) && i < |inds|
    requires Collected(g, n, targets, draws, inds, i, cs, goodinds, hs)
    requires keep <==> Outcome(g, draws[inds[i]]) != Some(0.0)
    requires keep ==> Outcome(g, draws[inds[i]]) == Some(c) && 0.0 < c <= 1.0
    requires keep ==> h == TargetHistogram(g, n, draws[inds[i]])
    ensures keep ==> Collected(g, n, targets, draws, inds, i + 1, cs + [c], goodinds + [inds[i]], hs + [h])
    ensures !keep ==> Collected(g, n, targets, draws, inds, i + 1, cs, goodinds, hs)
  {
    var j := inds[i];
    assert j in inds;
    assert i + 1 < |inds| ==> j < inds[i + 1];
    if keep {
      assert Reported(g, targets, draws, j, c);
      AppendAscending(goodinds, j);
      AppendReported(g, targets, draws, cs, goodinds, j, c);
      AppendHistogram(g, n, draws, goodinds, hs, j, h);
      ExtendCoverage(g, draws, inds, i, goodinds, goodinds + [j]);
    } else {
      ExtendCoverage(g, draws, inds, i, goodinds, goodinds);
    }
  }

  /** The loop over the pre-selected targets: each one runs the convergence
      loop on its own draws, and its completeness, index and normalised
      histogram (a density, by `TargetHistogramIsDensity`) are kept when the
      estimate is non-zero. Every selected target's draws are assumed to reach the stopping rule, as the source's
      unbounded sampling does. */
  method CompletenessOfTargets(g: Limits, n: nat, targets: seq<TargetRange>, draws: seq<seq<seq<Sample>>>)
    returns (cs: seq<real>, goodinds: seq<nat>, hs: seq<seq<real>>)
    requires g.Valid() && n > 0 && |draws| == |targets|
    requires forall j, b :: 0 <= j < |draws| && b in draws[j] ==> |b| == n
    requires forall j :: 0 <= j < |targets| && Observable(g, targets[j]) ==> Outcome(g, draws[j]).Some?
    ensures |cs| == |goodinds| == |hs|
    ensures Ascending(goodinds)
    ensures forall t :: 0 <= t < |goodinds| ==> Reported(g, targets, draws, goodinds[t], cs[t])
    ensures forall j :: 0 <= j < |targets| && Observable(g, targets[j]) && Outcome(g, draws[j]) != Some(0.0) ==> j in goodinds
    ensures forall t :: 0 <= t < |hs| ==> goodinds[t] < |draws| && hs[t] == TargetHistogram(g, n, draws[goodinds[t]])
  {
    var inds := Preselect(g, targets);
    cs, goodinds, hs := [], [], [];
    var i := 0;
    while i < |inds|
      invariant Collected(g, n, targets, draws, inds, i, cs, goodinds, hs)
    {
      var j := inds[i];
      assert j in inds;
      var keep, c, h := ProcessTarget(g, n, draws[j]);
      CollectStep(g, n, targets, draws, inds, i, cs, goodinds, hs, keep, c, h);
      if keep {
        cs := cs + [c];
        goodinds := goodinds + [j];
        hs := hs + [h];
      }
      i := i + 1;
    }
    forall j | 0 <= j < |targets| && Observable(g, targets[j]) && Outcome(g, draws[j]) != Some(0.0)
      ensures j in goodinds
    {
      assert j in inds;
      var q :| 0 <= q < |inds| && inds[q] == j;
    }
  }
}
