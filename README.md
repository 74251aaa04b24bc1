# plandb methods — a verified model of the deterministic core

`plandb_methods.py` builds the planet database behind plandb.sioslab.com: it
downloads the exoplanet catalog, picks one row of orbital parameters per
planet, fills in radii from masses, computes quadrature photometry and a
Monte-Carlo estimate of each planet's detection completeness for a
coronagraph, and records star aliases. This project models in Dafny the
discrete, deterministic logic inside that pipeline and proves what it
promises:

- `CloudLevel` — `get_fsed`: the cloud sedimentation level drawn from a
  uniform number through half-open cumulative thresholds.
- `MassRadius` — `RfromM`: the piecewise power-law mass–radius relation,
  written in log space (`log10 R = C[j] + S[j] * log10 M`), with the bin
  choice of `np.digitize`, the slopes and intercepts solved so that adjacent
  segments meet, the per-bin fill loop, and the Jupiter-radius cap applied
  in the completeness engine.
- `BestRow` — the row-selection loop of `getIPACdata`: per planet, walk the
  catalog rows newest first, keep the best-populated one, and flag it in
  `best_data`. The walk is modelled as written and with its level
  assignment corrected (see "## Findings"); the flag write takes a switch,
  off for the source's walk and on for the corrected one.
- `Catalog` — the keep filter applied to the merged catalog, and the parse
  of a spectral-type string into its letter and subtype.
- `PhotometryGrid` — `makeninterp`'s snap to the nearest grid value with
  clamping, the exclusion of phase-angle rows holding a NaN before a spline
  fit, and the nested interpolant table, modelled as one map keyed by
  (metallicity, distance, cloud).
- `Quadrature` — the NaN-aware choice between the two quadrature points in
  `calcQuadratureVals`.
- `Completeness` — the skeleton of `calcPlanetCompleteness`: target
  pre-selection, the working-angle × Δmag histogram accumulated in place
  over the interior bins, the detected fraction per iteration, the running
  mean and its relative change, the three-way stopping rule, normalisation
  of the histogram, and the loop over targets that keeps the non-zero ones.
- `Aliases` — the final normalisation of a star's alias list in `genAliases`.
- `Wrappers` — `Option`, used for every value that may be NaN (`None`).

NaN is `None` throughout. Random draws and the physics that turns them into
working angles and Δmag values are inputs: an iteration of the completeness
loop is a sequence of samples `(WA, dMag, dMag limit)`.

A target whose completeness stays zero leaves the loop after exactly three
iterations, because the `break` at plandb_methods.py:1126 needs `k > 2` and
`pdiff` is held at 1 while `c == 0` (`ZeroTargetStopsAtThree`).

## Model

| member | source | states |
|---|---|---|
| CloudLevel.GetFsed | plandb_methods.py:906-937 | the result is always one of the eight f_sed levels 0, 0.01, 0.03, 0.1, 0.3, 1, 3, 6 |
| CloudLevel.ThresholdsAreCumulative | plandb_methods.py:907-916 | the thresholds 0.099 … 0.72 are the running sums of the documented level frequencies, ending at 1 |
| CloudLevel.GetFsedFollowsDistribution | plandb_methods.py:921-936 | for a draw in [0, 1), level i is returned exactly when the draw lies in [cumulative(i), cumulative(i+1)), so each level has its documented probability |
| CloudLevel.ThresholdsAreHalfOpen | plandb_methods.py:921-936 | a draw equal to a threshold gets the level above it (0.099 gives 0.01, 0.72 gives 6) |
| CloudLevel.GetFsedMonotone | plandb_methods.py:921-936 | the level is non-decreasing in the draw |
| MassRadius.Digitize | plandb_methods.py:55 | `np.digitize` over [0, T0, T1, T2, T3, inf]: bin 0 for a negative mass, 1 for zero, and bin j for T[j-2] <= M < T[j-1], half-open |
| MassRadius.RadiusOf | plandb_methods.py:55-57 | a positive mass gets 10 to the log radius of its digitize bin, and a negative or zero mass keeps radius 0 |
| MassRadius.RfromM | plandb_methods.py:33-57 | the array filled bin by bin over bins 1..max holds, for every mass, the power law of its bin (and no radius for a negative mass) |
| MassRadius.SegmentsMeet | plandb_methods.py:37-52 | with the solved slopes and intercepts, adjacent segments agree at T0, give the Saturn radius on both sides of T1, the Jupiter radius on both sides of T2 and T3 |
| MassRadius.BreakpointTakesUpperSegment | plandb_methods.py:55-57 | a mass exactly at a breakpoint T[j] falls in the bin above it and gets that bin's segment |
| MassRadius.NonPositiveMassHasNoRadius | plandb_methods.py:55-57 | a negative or zero mass keeps the initial radius 0 (no power law applies) |
| MassRadius.SegmentsChainMonotone | plandb_methods.py:37-52 | for increasing breakpoints and radii, the segments joined at the breakpoints form a non-decreasing curve |
| MassRadius.LogRadiusMonotone | plandb_methods.py:37-57 | a larger positive mass never gets a smaller radius |
| MassRadius.CapToJupiter | plandb_methods.py:1072-1073 | after conversion to Jupiter radii a radius above 1 becomes exactly 1, a radius at most 1 is unchanged, and a zero radius stays zero |
| MassRadius.CappedRadiusAboveJupiterMass | plandb_methods.py:1072-1073 | every mass at or above a Jupiter mass ends with radius exactly 1 Jupiter radius |
| MassRadius.CapRadii | plandb_methods.py:1073 | the in-place cap replaces every entry of the array by its capped value |
| BestRow.Rank | plandb_methods.py:141-169 | a row's level is -1 without sma-or-period and mass-or-radius, and 4 exactly when it also has eccentricity, periapsis time, argument of periapsis and inclination |
| BestRow.FirstMax | plandb_methods.py:140-176 | the selected position holds the highest level, and every earlier (newer) row has a strictly lower one |
| BestRow.SelectBestRow | plandb_methods.py:137-179 | the loop, with the replacement row at 174-176 given level 0, returns the newest row of highest level |
| BestRow.SelectBestRowAsWritten | plandb_methods.py:137-179 | the loop as written returns the newest row of highest level under the levels the code actually assigns, including level 1 for a replacement row |
| BestRow.SelectBestRowIsBestRanked | plandb_methods.py:137-179 | the chosen row is the first complete row when there is one; it has sma-or-period and mass-or-radius when any row does; it is the most recent row when none does |
| BestRow.AsWrittenFollowsRules | plandb_methods.py:137-179 | the three selection rules also hold for the code as written |
| BestRow.AsWrittenSkipsEccentricity | plandb_methods.py:171-176 | rows [no data, base only, base and eccentricity]: the code as written keeps the base-only row, the corrected loop takes the row with eccentricity |
| BestRow.ChooseRow | plandb_methods.py:137-179 | one planet's walk yields the index of the row at the first maximum of its levels: the as-written levels, or the corrected ranks |
| BestRow.OneChosenRowPerPlanet | plandb_methods.py:132-181 | for the walk as written (and for the corrected one), a row is flagged exactly when it sits at its planet's chosen position, so each planet has exactly one flagged row |
| BestRow.MarkBestRows | plandb_methods.py:132-181 | with `corrected` false (the source), the flag array gets 1 at the row the walk as written chooses for each planet and keeps its other entries; with `corrected` true, at the corrected walk's row |
| Catalog.FilterKept | plandb_methods.py:229-233 | the kept rows are exactly the input rows that have non-zero status, a distance, sma or (period and stellar mass), and mass or radius, each with its multiplicity |
| Catalog.Keep | plandb_methods.py:229-231 | a zero status, a missing distance, neither mass nor radius, or neither sma nor (period and stellar mass) rejects a row; a NaN status does not |
| Catalog.KeptRowsAreUsable | plandb_methods.py:224-231 | every kept row has a distance, a way to get its semi-major axis, and a mass or radius |
| Catalog.SubtypeRun | plandb_methods.py:399 | the run is a prefix of the rest of the string, consists of digits and commas, and is maximal |
| Catalog.ParseSpectralType | plandb_methods.py:396-405 | a type is found exactly when the second character is a digit or comma; it then has the first character as letter and the maximal digit/comma run as subtype; otherwise the luminosity stays missing |
| PhotometryGrid.NearestFrom | plandb_methods.py:494-496 | the scan returns an axis value nearest to the query, and on a tie the lower one |
| PhotometryGrid.Snap | plandb_methods.py:494-501 | the snapped value is a grid value, as near to the query as any and strictly nearer than every lower one (a midpoint goes to the lower value), equal to the minimum below the grid and the maximum above it |
| PhotometryGrid.SnapFixesAxisValues | plandb_methods.py:494-496 | every grid value snaps to itself, so snapping is idempotent |
| PhotometryGrid.GoodBetasFrom | plandb_methods.py:513-516 | the kept phase-angle indices are, in ascending order, exactly those whose row holds no NaN |
| PhotometryGrid.NoNaNKeepsAllFrom | plandb_methods.py:513-520 | on a NaN-free cell every row is kept, so the filtering branch and the whole-cell branch fit the same data |
| PhotometryGrid.FitData | plandb_methods.py:513-520 | the spline receives, for each kept phase-angle index in ascending order, that index's angle and its NaN-free row; every NaN-free row's angle is present, and strictly increasing angles stay strictly increasing |
| PhotometryGrid.BuildInterpolants | plandb_methods.py:504-521 | the table has a key for exactly the grid points, and each holds the fit data of its cell and that cell's phase-angle row 9 |
| PhotometryGrid.SnappedLookupDefined | plandb_methods.py:615-616 | a lookup with snapped metallicity and distance and a grid cloud level always finds an entry |
| PhotometryGrid.SampledCloudLookupDefined | plandb_methods.py:1097-1101 | with a cloud axis holding every f_sed level, a lookup with a sampled cloud level always finds an entry |
| Quadrature.ChooseQuadrature | plandb_methods.py:626-633 | the chosen point is one of the two; a NaN second Δmag keeps the first point (also when both are NaN); it has a NaN Δmag only when both do; its Δmag is no larger than either finite one; a tie goes to the second point |
| Completeness.CellOf | plandb_methods.py:959-962 | a sample gets a cell exactly when minangsep <= WA < maxangsep and 0 <= dMag < 26, and the cell's bin edges enclose the sample |
| Completeness.Histogram | plandb_methods.py:1109 | one iteration's interior histogram has one entry per (working-angle, Δmag) interior cell, row-major; its contents are fixed by HistogramCountsCells |
| Completeness.HistogramCountsCells | plandb_methods.py:1109 | each cell of an iteration's interior histogram counts exactly the samples of that cell |
| Completeness.HistogramTotal | plandb_methods.py:1109 | an iteration adds as many counts as it has samples in the interior, at most one per sample |
| Completeness.AccumulatedTotal | plandb_methods.py:1109-1110 | after k iterations of n samples, h holds at most n·k counts |
| Completeness.NormalizedHistogramAtMostOne | plandb_methods.py:1132-1133 | h / (n·k) sums to at most 1 |
| Completeness.Normalize | plandb_methods.py:1133 | every entry of h / (n*k) is its count divided by n*k, and non-negative |
| Completeness.TargetHistogram | plandb_methods.py:1109-1133 | the histogram stored for a target is the interior counts accumulated up to the iteration the loop stops after, divided by n times that number |
| Completeness.TargetHistogramIsDensity | plandb_methods.py:1109-1133 | a stored histogram has non-negative entries summing to at most 1 |
| Completeness.DetectedCount | plandb_methods.py:1113 | the detected count of an iteration is at most its sample count |
| Completeness.DetectedCountExtremes | plandb_methods.py:1113 | the count is 0 exactly when no sample is within [minangsep, maxangsep] and at or below its contrast limit, and equals the sample count exactly when every one is |
| Completeness.Fraction | plandb_methods.py:1112-1113 | the detected fraction of an iteration lies in [0, 1] |
| Completeness.MeanStep | plandb_methods.py:1116-1120 | the update ((k-1)·c + currc)/k turns the mean of k-1 fractions into the mean of k |
| Completeness.MeanBounds | plandb_methods.py:1113-1120 | the running mean of fractions stays in [0, 1] |
| Completeness.PDiffSettled | plandb_methods.py:1121-1124 | a zero estimate never counts as settled (pdiff is 1); for a positive one pdiff is non-negative and at most 1e-4 exactly when the estimate moved by at most 1e-4 of itself |
| Completeness.StopsAfterThree | plandb_methods.py:1126-1130 | the stopping rule never holds before the third iteration, and with a zero estimate it holds exactly from the third on |
| Completeness.StopIndex | plandb_methods.py:1121-1130 | the stopping iteration is the first one satisfying the rule, or none |
| Completeness.ZeroTargetStopsAtThree | plandb_methods.py:1121-1127 | a target whose first three fractions are 0 does not stop after 1 or 2 iterations and stops after exactly 3 |
| Completeness.AddInto | plandb_methods.py:1109 | the in-place `h +=` adds the iteration's histogram to every cell |
| Completeness.EstimateCompleteness | plandb_methods.py:1038-1133 | the loop consumes iterations until the stopping rule first holds (never before 3); c is the mean of the fractions so far and lies in [0, 1]; the histogram is kept exactly when c != 0, and is then the accumulated interior counts divided by n·k (`TargetHistogram`); the result agrees with `Outcome` |
| Completeness.PreselectFrom | plandb_methods.py:957 | the selected indices are ascending and are exactly the targets with pl_maxangsep > minangsep and pl_minangsep < maxangsep |
| Completeness.Preselect | plandb_methods.py:957 | `inds` is exactly the observable targets, ascending |
| Completeness.ProcessTarget | plandb_methods.py:1038-1141 | a target is kept exactly when its estimate is non-zero, and then with that estimate, in (0, 1], and its normalised histogram `TargetHistogram` |
| Completeness.CompletenessOfTargets | plandb_methods.py:957-1141 | `goodinds` lists, in target order, exactly the observable targets with non-zero completeness; `cs` holds their estimates, in (0, 1]; every stored histogram is its target's `TargetHistogram` |
| Aliases.StrLessTransitive | plandb_methods.py:1253 | the string order used for sorting is transitive (with irreflexivity and totality, a strict total order) |
| Aliases.SortedUnique | plandb_methods.py:1253 | `np.unique` yields a strictly sorted list with exactly the input's elements |
| Aliases.RemoveFirst | plandb_methods.py:1252 | `list.remove` deletes one occurrence of the name |
| Aliases.NormaliseAliases | plandb_methods.py:1251-1257 | the aliases are sorted without duplicates; a name other than "aliasdis" is present exactly when fetched or the star itself; "aliasdis" survives only when it was fetched at least twice; the primary flags are 1 exactly at the star's own name |
| Aliases.ExactlyOnePrimary | plandb_methods.py:1257 | exactly one alias is flagged as the primary name |

## Left out

- HTTP queries to IPAC and SIMBAD, pandas merges and renames, SQL writing and column comments, and file I/O (`np.load`, `np.savez`, the contrast-curve file) are I/O and not modelled.
- Floating-point astrophysics is not modelled: Kepler's law, conic radii, sky separations, phase angles, working-angle arctangents, unit conversions and `lum_fix`. Those values enter the completeness model as sample inputs.
- Foreign library calls are not visible: `eccanom`, `deltaMag`, the Fortney `griddata` model, MeanStars luminosity lookups, `RectBivariateSpline` (the model stops at the data handed to it), `interp1d` on the contrast curve and the band integration.
- Random sampling of orbital elements, masses, radii and cloud draws is not modelled; the samples of every iteration are given as a sequence.
- Completeness.EstimateCompleteness: termination is not modelled. The source keeps drawing until the stopping rule holds; the model consumes a finite sequence of iterations and reports when it runs out before stopping. `CompletenessOfTargets` requires every observable target's iterations to reach the stopping rule.
- Completeness.Fraction: divides by the iteration's own sample count, which is n in the source (n = 10^6, so an iteration is never empty).
- Completeness.CellOf: the bin edges are exact integers in mas and exact tenths of a magnitude; the rounding of `np.arange(0, 26.1, 0.1)` is not modelled, and the angular limits are integers (the defaults are 150 and 450).
- The post-processing of the completeness output (log10 of H, the minCWA/maxCWA/minCdMag/maxCdMag bounds and the data-frame assembly) is not modelled.
- MassRadius.RfromM: requires a non-empty mass list, because `inds.max()` of an empty array raises; NaN masses are not modelled (masses are negative, zero or a positive log10 value).
- BestRow.SelectBestRow: requires at least one row per planet, because `sorted_rows.index[0]` raises otherwise; row indices are assumed distinct, as the data-frame index is.
- Catalog.ParseSpectralType: requires a non-empty string, because `str_row[0]` raises on an empty one; the luminosity lookup it feeds (`SpTOther`) is not modelled.
- Catalog.FilterKept: states which rows are kept and how often, not that their order is preserved.
- PhotometryGrid.GoodBetasFrom: returns the kept rows in ascending order. The source lists them from a Python set difference, and CPython iterates a set in hash-table slot order (an integer's value modulo the table size). A small result built from a larger axis is not ascending in general: with 12 phase angles and only rows 5, 9, 10 and 11 kept, the order is 9, 10, 11, 5.
- PhotometryGrid.FitData: the source fails on some cells and the model does not: when every phase-angle row of a cell holds a NaN, `betas[goodbetas]` indexes with an empty float array and raises, `RectBivariateSpline` raises with fewer than four kept rows, and it raises when the set lists the kept rows out of ascending order (so their angles are not strictly increasing); the model hands such a cell's (short or empty) data on.
- PhotometryGrid.BuildInterpolants: requires more than nine phase angles (`WellShaped`), because the row at index 9 taken for the quadrature interpolant raises otherwise.
- Floating-point rounding is not modelled: the model uses exact reals where the source uses IEEE doubles, in the `get_fsed` thresholds, the running mean, `pdiff`, and the `c == 0.0` and `pdiff <= 1e-4` tests, so results at or next to a threshold can differ from the source.
- PhotometryGrid.BuildInterpolants: the nested dictionaries `photinterps2[fe][d][cloud]` are one map keyed by the triple; the `str(float)` cloud labels are not modelled.
- The alias network queries and retry logic of `genAliases`, `genAllAliases` and `fillMissingAliases` are not modelled; only the normalisation of the fetched list is.

## Findings

| source | as written | input that shows it | evidently intended | confidence | as-written member | corrected member |
|---|---|---|---|---|---|---|
| plandb_methods.py:174-176 | a row that replaces a newest row lacking basic data gets `good_lvl = 1`, the eccentricity level, though it was chosen only for having sma-or-period and mass-or-radius | rows, newest first: [no basic data, basic data only, basic data and eccentricity] — the code keeps the second row, since the third's level 1 is not above 1 | the replacement row gets level 0, so the later row with eccentricity (level 1) replaces it | not executed | BestRow.SelectBestRowAsWritten, BestRow.AsWrittenSkipsEccentricity | BestRow.SelectBestRow |
