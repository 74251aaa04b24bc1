/** Two small pieces of `getIPACdata`: the keep filter applied to the merged
    catalog (plandb_methods.py:224-233) and the spectral-type parse used to
    fill missing stellar luminosities (plandb_methods.py:396-405). */
module Catalog {
  import opened Wrappers

  /** The columns the keep filter reads; `None` is a NaN cell. */
  datatype CatalogRow = CatalogRow(status: Option<real>, dist: Option<real>,
                                   sma: Option<real>, period: Option<real>, starMass: Option<real>,
                                   mass: Option<real>, radius: Option<real>)

  /** A row is kept when its status is not 0 (a NaN status is not equal to 0),
      the distance is known, the semi-major axis or both the period and the
      stellar mass are known, and the mass or the radius is known. */
  predicate Keep(r: CatalogRow): (k: bool)
    ensures r.status == Some(0.0) || r.dist.None? || (r.mass.None? && r.radius.None?) ==> !k
    ensures r.sma.None? && (r.period.None? || r.starMass.None?) ==> !k
    ensures r.status.None? && r.dist.Some? && r.sma.Some? && r.mass.Some? ==> k
  {
    r.status != Some(0.0) && r.dist.Some?
    && (r.sma.Some? || (r.period.Some? && r.starMass.Some?))
    && (r.mass.Some? || r.radius.Some?)
  }

  /** `data[keep]`: the rows passing the filter, in their original order. */
  function FilterKept(rows: seq<CatalogRow>): (kept: seq<CatalogRow>)
    ensures |kept| <= |rows|
    ensures forall r :: r in kept ==> Keep(r)
    ensures forall r :: multiset(kept)[r] == if Keep(r) then multiset(rows)[r] else 0
  {
    if rows == [] then []
    else
      var rest := FilterKept(rows[1..]);
      assert rows == [rows[0]] + rows[1..];
      if Keep(rows[0]) then [rows[0]] + rest else rest
  }

  /** Every row that survives has the data the later gap filling needs:
      a distance, an orbit size source and a mass or radius. */
  lemma KeptRowsAreUsable(rows: seq<CatalogRow>, i: nat)
    requires i < |FilterKept(rows)|
    ensures var r := FilterKept(rows)[i];
            r.dist.Some? && (r.sma.Some? || (r.period.Some? && r.starMass.Some?))
            && (r.mass.Some? || r.radius.Some?)
  {
    assert FilterKept(rows)[i] in FilterKept(rows);
  }

  /** Characters of the subtype run: `[0-9,]`. */
  predicate IsSubtypeChar(c: char)
  {
    '0' <= c <= '9' || c == ','
  }

  /** The longest prefix of `t` made of digits and commas
      (`re.search("^[0-9,]+", t)`, empty when it does not match). */
  function SubtypeRun(t: string): (run: string)
    ensures run <= t
    ensures forall i :: 0 <= i < |run| ==> IsSubtypeChar(run[i])
    ensures |run| == |t| || !IsSubtypeChar(t[|run|])
  {
    if |t| > 0 && IsSubtypeChar(t[0]) then [t[0]] + SubtypeRun(t[1..]) else []
  }

  /** A parsed spectral type: class letter and numeric subtype text. */
  datatype SpectralType = SpectralType(letter: char, subtype: string)

  /** The parse of a non-empty `st_spstr`: the first character is the letter,
      the maximal digit/comma run right after it the subtype. `None` when
      the run is empty: the luminosity is then set to NaN. */
  function ParseSpectralType(s: string): (r: Option<SpectralType>)
    requires |s| > 0
    ensures r.Some? <==> |s| > 1 && IsSubtypeChar(s[1])
    ensures r.Some? ==> r.value.letter == s[0]
    ensures r.Some? ==> var n := |r.value.subtype|;
              && 0 < n < |s|
              && s[1..n + 1] == r.value.subtype
              && (forall i :: 1 <= i <= n ==> IsSubtypeChar(s[i]))
              && (n + 1 == |s| || !IsSubtypeChar(s[n + 1]))
  {
    var run := SubtypeRun(s[1..]);
    if run == [] then None else Some(SpectralType(s[0], run))
  }
}
