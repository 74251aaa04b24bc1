/** The mass-to-radius model `RfromM` (plandb_methods.py:27-58) and the
    radius cap applied to its output in the completeness engine
    (plandb_methods.py:1072-1073).

    The model is a piecewise power law, so it is linear in log space: with
    `lm` the base-10 logarithm of a mass in Earth masses, segment `j` gives
    log10 R = C[j] + lm * S[j]. Logarithms of the physical constants are
    parameters; everything else is exact real arithmetic. */
module MassRadius {

  /** Base-10 logarithms of the constants of `RfromM`: the four breakpoints
      T (2.04, 95.16, one Jupiter mass and 0.08 solar masses, in Earth
      masses), C[0] = log10(1.008), Saturn's radius 8.522 and Jupiter's
      radius in Earth radii. */
  datatype Params = Params(lT0: real, lT1: real, lT2: real, lT3: real,
                           c0: real, lRs: real, lRj: real)
  {
    /** The breakpoints are increasing. */
    predicate Valid() { lT0 < lT1 < lT2 < lT3 }

    /** Log breakpoint `j`, 0 <= j < 4. */
    function Breakpoint(j: nat): real
      requires j < 4
    {
      if j == 0 then lT0 else if j == 1 then lT1 else if j == 2 then lT2 else lT3
    }
  }

  /** The fixed slopes S[0] and S[4]. */
  const S0: real := 0.2790
  const S4: real := 0.881

  /** Slope S[j]; S[1] and S[2] are solved from the Saturn and Jupiter anchors. */
  function Slope(p: Params, j: nat): real
    requires p.Valid() && j < 5
  {
    if j == 0 then S0
    else if j == 1 then (p.lRs - (p.c0 + p.lT0 * S0)) / (p.lT1 - p.lT0)
    else if j == 2 then (p.lRj - p.lRs) / (p.lT2 - p.lT1)
    else if j == 3 then 0.0
    else S4
  }

  /** Intercept C[j]. */
  function Intercept(p: Params, j: nat): real
    requires p.Valid() && j < 5
  {
    if j == 0 then p.c0
    else if j == 1 then p.lRs - p.lT1 * Slope(p, 1)
    else if j == 2 then p.lRj - p.lT2 * Slope(p, 2)
    else if j == 3 then p.lRj
    else p.lRj - p.lT3 * S4
  }

  /** Log radius on segment `j` at log mass `x`. */
  function Segment(p: Params, j: nat, x: real): real
    requires p.Valid() && j < 5
  {
    Intercept(p, j) + x * Slope(p, j)
  }

  /** A mass sample: negative, zero, or positive with its base-10 logarithm. */
  datatype Mass = Negative | Zero | Positive(lm: real)

  /** A radius: zero, or 10^e Earth radii. */
  datatype Radius = NoRadius | Pow10(e: real)

  /** `np.digitize` against the bins [0, T0, T1, T2, T3, inf]: the index `b`
      with bins[b-1] <= m < bins[b], 0 below the first bin. */
  function Digitize(p: Params, m: Mass): (b: nat)
    requires p.Valid()
    ensures b <= 5
    ensures b == 0 <==> m.Negative?
    ensures m.Zero? ==> b == 1
    ensures m.Positive? ==> 1 <= b
    ensures m.Positive? && b < 5 ==> m.lm < p.Breakpoint(b - 1)
    ensures m.Positive? && b > 1 ==> p.Breakpoint(b - 2) <= m.lm
  {
    match m
    case Negative => 0
    case Zero => 1
    case Positive(lm) =>
      if lm < p.lT0 then 1
      else if lm < p.lT1 then 2
      else if lm < p.lT2 then 3
      else if lm < p.lT3 then 4
      else 5
  }

  /** The value written for a mass whose bin is `j`:
      10 ** (C[j-1] + log10(m) * S[j-1]). A zero mass has log10(m) = -inf,
      so its radius is 10 ** -inf = 0. */
  function BinRadius(p: Params, j: nat, m: Mass): Radius
    requires p.Valid() && 1 <= j <= 5
  {
    match m
    case Positive(lm) => Pow10(Segment(p, j - 1, lm))
    case _ => NoRadius
  }

  /** Log radius of a positive mass. */
  function LogRadius(p: Params, lm: real): real
    requires p.Valid()
  {
    Segment(p, Digitize(p, Positive(lm)) - 1, lm)
  }

  /** The radius `RfromM` gives one mass: untouched (zero) in bin 0, zero
      for a zero mass, and 10 to the log radius for a positive one. */
  function RadiusOf(p: Params, m: Mass): (r: Radius)
    requires p.Valid()
    ensures m.Positive? ==> r == Pow10(LogRadius(p, m.lm))
    ensures !m.Positive? ==> r == NoRadius
  {
    var b := Digitize(p, m);
    if b == 0 then NoRadius else BinRadius(p, b, m)
  }

  /** Largest element of a non-empty sequence (`inds.max()`). */
  function MaxOf(s: seq<nat>): (r: nat)
    requires |s| > 0
    ensures r in s && forall i :: 0 <= i < |s| ==> s[i] <= r
  {
    if |s| == 1 then s[0]
    else
      var m := MaxOf(s[..|s| - 1]);
      assert forall i :: 0 <= i < |s| - 1 ==> s[..|s| - 1][i] == s[i];
      if s[|s| - 1] > m then s[|s| - 1] else m
  }

  /** `RfromM`: R starts as zeros and is filled bin by bin, for bins
      1 .. max(inds); masses in bin 0 keep radius zero. */
  method RfromM(p: Params, ms: seq<Mass>) returns (r: array<Radius>)
    requires p.Valid() && |ms| > 0
    ensures r.Length == |ms|
    ensures forall i :: 0 <= i < |ms| ==> r[i] == RadiusOf(p, ms[i])
  {
    var inds := seq(|ms|, i requires 0 <= i < |ms| => Digitize(p, ms[i]));
    r := new Radius[|ms|](_ => NoRadius);
    var top := MaxOf(inds);
    var j := 1;
    while j <= top
      invariant 1 <= j <= top + 1
      invariant forall i :: 0 <= i < |ms| ==>
        r[i] == if 1 <= inds[i] < j then BinRadius(p, inds[i], ms[i]) else NoRadius
    {
      var i := 0;
      while i < |ms|
        invariant 0 <= i <= |ms|
        invariant forall q :: 0 <= q < i ==>
          r[q] == if 1 <= inds[q] <= j then BinRadius(p, inds[q], ms[q]) else NoRadius
        invariant forall q :: i <= q < |ms| ==>
          r[q] == if 1 <= inds[q] < j then BinRadius(p, inds[q], ms[q]) else NoRadius
      {
        if inds[i] == j {
          r[i] := BinRadius(p, j, ms[i]);
        }
        i := i + 1;
      }
      j := j + 1;
    }
  }

  /** Adjacent segments meet at every breakpoint: the curve is continuous,
      passing through Saturn's radius at T1 and Jupiter's at T2 and T3. */
  lemma SegmentsMeet(p: Params)
    requires p.Valid()
    ensures Segment(p, 0, p.lT0) == Segment(p, 1, p.lT0)
    ensures Segment(p, 1, p.lT1) == p.lRs == Segment(p, 2, p.lT1)
    ensures Segment(p, 2, p.lT2) == p.lRj == Segment(p, 3, p.lT2)
    ensures Segment(p, 3, p.lT3) == p.lRj == Segment(p, 4, p.lT3)
  {
    var s1, s2 := Slope(p, 1), Slope(p, 2);
    assert s1 * (p.lT1 - p.lT0) == p.lRs - (p.c0 + p.lT0 * S0);
    assert s2 * (p.lT2 - p.lT1) == p.lRj - p.lRs;
  }

  /** A mass exactly at a breakpoint is assigned to the segment above it, and
      its radius equals the value of the segment below it there. */
  lemma BreakpointTakesUpperSegment(p: Params, j: nat)
    requires p.Valid() && j < 4
    ensures Digitize(p, Positive(p.Breakpoint(j))) == j + 2
    ensures RadiusOf(p, Positive(p.Breakpoint(j))) == Pow10(Segment(p, j, p.Breakpoint(j)))
  {
    SegmentsMeet(p);
  }

  /** A negative mass leaves radius zero; so does a zero mass. */
  lemma NonPositiveMassHasNoRadius(p: Params, m: Mass)
    requires p.Valid() && !m.Positive?
    ensures RadiusOf(p, m) == NoRadius
  {
  }

  /** Parameters for which S[1] and S[2] are non-negative: Saturn's radius
      lies above the first segment's end, Jupiter's at or above Saturn's. */
  predicate Increasing(p: Params)
  {
    p.Valid() && p.c0 + p.lT0 * S0 <= p.lRs <= p.lRj
  }

  lemma SlopesNonNegative(p: Params, j: nat)
    requires Increasing(p) && j < 5
    ensures Slope(p, j) >= 0.0
  {
    if j == 1 {
      DivNonNegative(p.lRs - (p.c0 + p.lT0 * S0), p.lT1 - p.lT0);
    } else if j == 2 {
      DivNonNegative(p.lRj - p.lRs, p.lT2 - p.lT1);
    }
  }

  lemma DivNonNegative(a: real, b: real)
    requires a >= 0.0 && b > 0.0
    ensures a / b >= 0.0
  {
  }

  lemma SegmentMonotone(p: Params, j: nat, x: real, y: real)
    requires Increasing(p) && j < 5 && x <= y
    ensures Segment(p, j, x) <= Segment(p, j, y)
  {
    SlopesNonNegative(p, j);
    assert Segment(p, j, y) - Segment(p, j, x) == (y - x) * Slope(p, j);
  }

  lemma BreakpointsIncreasing(p: Params, a: nat, b: nat)
    requires p.Valid() && a <= b < 4
    ensures p.Breakpoint(a) <= p.Breakpoint(b)
  {
  }

  /** Across segments: from `x` on segment `j` up to `y` on segment `k`,
      climbing through each breakpoint between them. */
  lemma {:induction false} SegmentsChainMonotone(p: Params, j: nat, k: nat, x: real, y: real)
    requires Increasing(p) && j <= k < 5 && x <= y
    requires j < k ==> x <= p.Breakpoint(j)
    requires j < k ==> p.Breakpoint(k - 1) <= y
    ensures Segment(p, j, x) <= Segment(p, k, y)
    decreases k - j
  {
    if j == k {
      SegmentMonotone(p, j, x, y);
    } else {
      var t := p.Breakpoint(j);
      SegmentMonotone(p, j, x, t);
      SegmentsMeet(p);
      assert Segment(p, j, t) == Segment(p, j + 1, t);
      BreakpointsIncreasing(p, j, k - 1);
      if j + 1 < k {
        BreakpointsIncreasing(p, j, j + 1);
      }
      SegmentsChainMonotone(p, j + 1, k, t, y);
    }
  }

  /** With non-negative slopes the radius never decreases with mass. */
  lemma LogRadiusMonotone(p: Params, x: real, y: real)
    requires Increasing(p) && x <= y
    ensures LogRadius(p, x) <= LogRadius(p, y)
  {
    var bx, bY := Digitize(p, Positive(x)), Digitize(p, Positive(y));
    assert bx <= bY;
    SegmentsChainMonotone(p, bx - 1, bY - 1, x, y);
  }

  /** `(R * R_earth).to(R_jupiter)` followed by `R[R > 1.0] = 1.0`: the
      radius in Jupiter radii (divide by 10^lRj), capped at one. */
  function CapToJupiter(p: Params, r: Radius): (c: Radius)
    ensures c.Pow10? ==> c.e <= 0.0
    ensures r.Pow10? && r.e - p.lRj <= 0.0 ==> c == Pow10(r.e - p.lRj)
    ensures r.Pow10? && r.e - p.lRj > 0.0 ==> c == Pow10(0.0)
    ensures r.NoRadius? ==> c == NoRadius
  {
    match r
    case NoRadius => NoRadius
    case Pow10(e) => if e - p.lRj > 0.0 then Pow10(0.0) else Pow10(e - p.lRj)
  }

  /** From one Jupiter mass up, the capped radius is exactly one Jupiter
      radius: the flat segment sits at Jupiter's radius and the last segment
      rises above it. */
  lemma CappedRadiusAboveJupiterMass(p: Params, lm: real)
    requires p.Valid() && p.lT2 <= lm
    ensures CapToJupiter(p, RadiusOf(p, Positive(lm))) == Pow10(0.0)
  {
    if p.lT3 <= lm {
      assert Segment(p, 4, lm) - p.lRj == (lm - p.lT3) * S4;
    }
  }

  /** The in-place cap over the converted radii array. */
  method CapRadii(p: Params, r: array<Radius>)
    modifies r
    ensures forall i :: 0 <= i < r.Length ==> r[i] == CapToJupiter(p, old(r[i]))
  {
    var i := 0;
    while i < r.Length
      invariant 0 <= i <= r.Length
      invariant forall q :: 0 <= q < i ==> r[q] == CapToJupiter(p, old(r[q]))
      invariant forall q :: i <= q < r.Length ==> r[q] == old(r[q])
    {
      r[i] := CapToJupiter(p, r[i]);
      i := i + 1;
    }
  }
}
