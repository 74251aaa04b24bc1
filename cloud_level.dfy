/** The cloud-sedimentation sampler `get_fsed` (plandb_methods.py:906-937):
    a uniform draw in [0,1) is mapped to one of eight categorical fsed values
    through half-open cumulative thresholds. */
module CloudLevel {

  /** The eight fsed levels, ascending. */
  const FsedValues: seq<real> := [0.0, 0.01, 0.03, 0.1, 0.3, 1.0, 3.0, 6.0]

  /** The probability of each level, as documented for the sampler. */
  const FsedFrequencies: seq<real> := [0.099, 0.001, 0.005, 0.010, 0.025, 0.280, 0.300, 0.280]

  /** Sum of the first `i` frequencies: level `i` is drawn for draws in
      [CumulativeFrequency(i), CumulativeFrequency(i + 1)). */
  function CumulativeFrequency(i: nat): real
    requires i <= |FsedFrequencies|
  {
    if i == 0 then 0.0 else CumulativeFrequency(i - 1) + FsedFrequencies[i - 1]
  }

  /** `get_fsed`: the threshold cascade, each comparison a strict `<`. */
  function GetFsed(num: real): (r: real)
    ensures r in FsedValues
  {
    if num < 0.099 then 0.0
    else if num < 0.1 then 0.01
    else if num < 0.105 then 0.03
    else if num < 0.115 then 0.1
    else if num < 0.14 then 0.3
    else if num < 0.42 then 1.0
    else if num < 0.72 then 3.0
    else 6.0
  }

  /** The cascade's thresholds are exactly the running sums of the documented
      frequencies, and the frequencies sum to one. */
  lemma {:induction false} ThresholdsAreCumulative()
    ensures CumulativeFrequency(1) == 0.099 && CumulativeFrequency(2) == 0.1
    ensures CumulativeFrequency(3) == 0.105 && CumulativeFrequency(4) == 0.115
    ensures CumulativeFrequency(5) == 0.14 && CumulativeFrequency(6) == 0.42
    ensures CumulativeFrequency(7) == 0.72 && CumulativeFrequency(8) == 1.0
  {
    assert CumulativeFrequency(0) == 0.0;
    assert CumulativeFrequency(1) == 0.099;
    assert CumulativeFrequency(2) == 0.1;
    assert CumulativeFrequency(3) == 0.105;
    assert CumulativeFrequency(4) == 0.115;
    assert CumulativeFrequency(5) == 0.14;
    assert CumulativeFrequency(6) == 0.42;
    assert CumulativeFrequency(7) == 0.72;
  }

  /** A draw in [0,1) yields level `i` exactly when it falls in the half-open
      interval [CumulativeFrequency(i), CumulativeFrequency(i + 1)), so each
      level is drawn with its documented frequency. */
  lemma GetFsedFollowsDistribution(num: real, i: nat)
    requires 0.0 <= num < 1.0 && i < |FsedValues|
    ensures GetFsed(num) == FsedValues[i]
        <==> CumulativeFrequency(i) <= num < CumulativeFrequency(i + 1)
  {
    ThresholdsAreCumulative();
  }

  /** A draw exactly on a threshold takes the level above it. */
  lemma ThresholdsAreHalfOpen(i: nat)
    requires 1 <= i < |FsedValues|
    ensures GetFsed(CumulativeFrequency(i)) == FsedValues[i]
  {
    ThresholdsAreCumulative();
  }

  /** A larger draw never gives a smaller cloud level. */
  lemma GetFsedMonotone(a: real, b: real)
    requires a <= b
    ensures GetFsed(a) <= GetFsed(b)
  {
  }
}
