/** The choice between the two quadrature points in `calcQuadratureVals`
    (plandb_methods.py:626-633): of the points at true anomaly -w and pi - w,
    keep the one with the smaller (brighter) Δmag, skipping a NaN. */
module Quadrature {
  import opened Wrappers

  /** One quadrature point: Δmag, phase-function value and orbital radius;
      `None` is NaN. */
  datatype QuadPoint = QuadPoint(dMag: Option<real>, pPhi: Option<real>, r: real)

  /** `if np.isnan(dMag2) or dMag1 < dMag2` keeps point 1, else point 2.
      A comparison with NaN is false. */
  function ChooseQuadrature(p1: QuadPoint, p2: QuadPoint): (q: QuadPoint)
    ensures q == p1 || q == p2
    ensures p2.dMag.None? ==> q == p1
    ensures q.dMag.None? ==> p1.dMag.None? && p2.dMag.None?
    ensures q.dMag.Some? && p1.dMag.Some? ==> q.dMag.value <= p1.dMag.value
    ensures q.dMag.Some? && p2.dMag.Some? ==> q.dMag.value <= p2.dMag.value
    ensures p1.dMag.Some? && p2.dMag.Some? && p1.dMag.value == p2.dMag.value ==> q == p2
  {
    if p2.dMag.None? || (p1.dMag.Some? && p1.dMag.value < p2.dMag.value) then p1 else p2
  }
}
