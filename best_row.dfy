/** Choice of the best parameter row for each planet in `getIPACdata`
    (plandb_methods.py:132-181). A planet's rows from the extended table are
    walked in descending publication-year order; the walk keeps the index of
    the best row so far (`good_idx`, -1 meaning "none yet") and its level
    (`good_lvl`), stops at the first complete row, and falls back to the most
    recent row. The chosen row is then flagged in the `best_data` column. */
module BestRow {

  /** One row of the extended table, reduced to its index label and to which
      of the orbital and physical columns are populated. */
  datatype Row = Row(index: nat, sma: bool, period: bool, mass: bool, radius: bool,
                     eccen: bool, tperi: bool, lperi: bool, incl: bool)

  /** `base_need`: semi-major axis or period, and mass or radius. */
  predicate BaseNeed(r: Row)
  {
    (r.sma || r.period) && (r.mass || r.radius)
  }

  /** Every column the walk asks for: the row that stops the walk. */
  predicate Complete(r: Row)
  {
    BaseNeed(r) && r.eccen && r.tperi && r.lperi && r.incl
  }

  /** How useful a row is: -1 without the base columns, then 0 to 4 by how
      many of eccentricity, periapsis time, argument of periapsis and
      inclination it adds, in the order the walk tests them. */
  function Rank(r: Row): (k: int)
    ensures -1 <= k <= 4
    ensures k >= 0 <==> BaseNeed(r)
    ensures k == 4 <==> Complete(r)
  {
    if !BaseNeed(r) then -1
    else if r.eccen && r.tperi && r.lperi && r.incl then 4
    else if r.eccen && r.tperi && r.lperi then 3
    else if r.eccen && (r.tperi || r.lperi) then 2
    else if r.eccen then 1
    else 0
  }

  function Ranks(rows: seq<Row>): (ks: seq<int>)
    ensures |ks| == |rows|
  {
    seq(|rows|, i requires 0 <= i < |rows| => Rank(rows[i]))
  }

  /** The position of the first maximum of a non-empty sequence. */
  function FirstMax(ks: seq<int>): (p: nat)
    requires |ks| > 0
    ensures p < |ks|
    ensures forall i :: 0 <= i < |ks| ==> ks[i] <= ks[p]
    ensures forall i :: 0 <= i < p ==> ks[i] < ks[p]
  {
    if |ks| == 1 then 0
    else
      var q := FirstMax(ks[..|ks| - 1]);
      assert forall i :: 0 <= i < |ks| - 1 ==> ks[..|ks| - 1][i] == ks[i];
      if ks[|ks| - 1] > ks[q] then |ks| - 1 else q
  }

  /** The two properties of FirstMax determine it. */
  lemma FirstMaxUnique(ks: seq<int>, p: nat)
    requires p < |ks|
    requires forall i :: 0 <= i < |ks| ==> ks[i] <= ks[p]
    requires forall i :: 0 <= i < p ==> ks[i] < ks[p]
    ensures FirstMax(ks) == p
  {
  }

  /** Index labels are distinct (the extended table has a fresh range index). */
  predicate DistinctIndexes(rows: seq<Row>)
  {
    forall i, j :: 0 <= i < j < |rows| ==> rows[i].index != rows[j].index
  }

  /** No row before position `i` has the base columns. */
  predicate NoBaseBefore(rows: seq<Row>, i: nat)
    requires i <= |rows|
  {
    forall q :: 0 <= q < i ==> !BaseNeed(rows[q])
  }

  /** The levels the walk as written effectively gives the rows: the rank,
      except that when the most recent row lacks the base columns, the first
      row that has them but no eccentricity is taken at level 1. */
  function AsWrittenLevels(rows: seq<Row>): (ks: seq<int>)
    requires |rows| > 0
    ensures |ks| == |rows|
  {
    seq(|rows|, i requires 0 <= i < |rows| =>
      if !BaseNeed(rows[0]) && Rank(rows[i]) == 0 && NoBaseBefore(rows, i) then 1 else Rank(rows[i]))
  }

  /** The walk exactly as the source writes it; the result is the index
      flagged as best. */
  method SelectBestRowAsWritten(rows: seq<Row>) returns (goodIdx: int)
    requires |rows| > 0 && DistinctIndexes(rows)
    ensures goodIdx == rows[FirstMax(AsWrittenLevels(rows))].index
  {
    ghost var ks := AsWrittenLevels(rows);
    goodIdx := rows[0].index;
    var goodLvl := 0;
    ghost var p := 0;
    var j := 0;
    while j < |rows|
      invariant 0 <= j <= |rows| && 0 <= goodLvl <= 3 && p < |rows|
      invariant goodIdx == -1 ==> 0 < j && goodLvl == 0 && NoBaseBefore(rows, j)
      invariant goodIdx != -1 ==> goodIdx == rows[p].index
      invariant j == 0 ==> p == 0 && goodLvl == 0 && goodIdx != -1
      invariant 0 < j && goodIdx != -1 ==> p < j && BaseNeed(rows[p]) && ks[p] == goodLvl
      invariant 0 < j && goodIdx != -1 ==> forall q :: 0 <= q < j ==> ks[q] <= goodLvl
      invariant goodIdx != -1 ==> forall q :: 0 <= q < p ==> ks[q] < goodLvl
    {
      var row := rows[j];
      var baseNeed := BaseNeed(row);
      if goodLvl < 4 && (baseNeed && row.eccen && row.tperi && row.lperi && row.incl) {
        goodIdx, goodLvl, p := row.index, 4, j;
        break;
      }
      if goodLvl < 3 && (baseNeed && row.eccen && row.tperi && row.lperi) {
        goodIdx, goodLvl, p := row.index, 3, j;
      } else if goodLvl < 2 && (baseNeed && row.eccen && (row.tperi || row.lperi)) {
        goodIdx, goodLvl, p := row.index, 2, j;
      } else if goodLvl < 1 && (baseNeed && row.eccen) {
        goodIdx, goodLvl, p := row.index, 1, j;
      } else if row.index == goodIdx && !baseNeed {
        goodIdx := -1;
      } else if goodIdx == -1 && baseNeed {
        goodIdx, goodLvl, p := row.index, 1, j;
      }
      j := j + 1;
    }
    if goodIdx == -1 {
      goodIdx, p := rows[0].index, 0;
    }
    FirstMaxUnique(ks, p);
  }

  /** The walk with the replacement branch keeping level 0, so that the row
      it takes can still be displaced by a later row with eccentricity. */
  method SelectBestRow(rows: seq<Row>) returns (goodIdx: int)
    requires |rows| > 0 && DistinctIndexes(rows)
    ensures goodIdx == rows[FirstMax(Ranks(rows))].index
  {
    ghost var ks := Ranks(rows);
    goodIdx := rows[0].index;
    var goodLvl := 0;
    ghost var p := 0;
    var j := 0;
    while j < |rows|
      invariant 0 <= j <= |rows| && 0 <= goodLvl <= 3 && p < |rows|
      invariant goodIdx == -1 ==> 0 < j && goodLvl == 0 && NoBaseBefore(rows, j)
      invariant goodIdx != -1 ==> goodIdx == rows[p].index
      invariant j == 0 ==> p == 0 && goodLvl == 0 && goodIdx != -1
      invariant 0 < j && goodIdx != -1 ==> p < j && BaseNeed(rows[p]) && ks[p] == goodLvl
      invariant 0 < j && goodIdx != -1 ==> forall q :: 0 <= q < j ==> ks[q] <= goodLvl
      invariant goodIdx != -1 ==> forall q :: 0 <= q < p ==> ks[q] < goodLvl
    {
      var row := rows[j];
      var baseNeed := BaseNeed(row);
      if goodLvl < 4 && (baseNeed && row.eccen && row.tperi && row.lperi && row.incl) {
        goodIdx, goodLvl, p := row.index, 4, j;
        break;
      }
      if goodLvl < 3 && (baseNeed && row.eccen && row.tperi && row.lperi) {
        goodIdx, goodLvl, p := row.index, 3, j;
      } else if goodLvl < 2 && (baseNeed && row.eccen && (row.tperi || row.lperi)) {
        goodIdx, goodLvl, p := row.index, 2, j;
      } else if goodLvl < 1 && (baseNeed && row.eccen) {
        goodIdx, goodLvl, p := row.index, 1, j;
      } else if row.index == goodIdx && !baseNeed {
        goodIdx := -1;
      } else if goodIdx == -1 && baseNeed {
        goodIdx, goodLvl, p := row.index, 0, j;
      }
      j := j + 1;
    }
    if goodIdx == -1 {
      goodIdx, p := rows[0].index, 0;
    }
    FirstMaxUnique(ks, p);
  }

  /** Levels that agree with the rows on what matters to the selection
      rules: 4 exactly for complete rows, non-negative exactly for rows with
      the base columns. Both the corrected ranks and the as-written levels
      have this shape. */
  predicate LevelShape(rows: seq<Row>, ks: seq<int>)
  {
    |ks| == |rows| &&
    forall i :: 0 <= i < |rows| ==>
      -1 <= ks[i] <= 4 && (ks[i] == 4 <==> Complete(rows[i])) && (ks[i] >= 0 <==> BaseNeed(rows[i]))
  }

  lemma RanksHaveShape(rows: seq<Row>)
    ensures LevelShape(rows, Ranks(rows))
  {
  }

  lemma AsWrittenLevelsHaveShape(rows: seq<Row>)
    requires |rows| > 0
    ensures LevelShape(rows, AsWrittenLevels(rows))
  {
  }

  /** The selection rules, for any levels of that shape: the first complete
      row wins; otherwise a row with the base columns is chosen whenever one
      exists; otherwise the most recent row. */
  lemma SelectionRules(rows: seq<Row>, ks: seq<int>)
    requires |rows| > 0 && LevelShape(rows, ks)
    ensures forall i :: (0 <= i < |rows| && Complete(rows[i])
              && (forall q :: 0 <= q < i ==> !Complete(rows[q]))) ==> FirstMax(ks) == i
    ensures (exists i :: 0 <= i < |rows| && BaseNeed(rows[i])) ==> BaseNeed(rows[FirstMax(ks)])
    ensures (forall i :: 0 <= i < |rows| ==> !BaseNeed(rows[i])) ==> FirstMax(ks) == 0
  {
    forall i | 0 <= i < |rows| && Complete(rows[i]) && (forall q :: 0 <= q < i ==> !Complete(rows[q]))
      ensures FirstMax(ks) == i
    {
      FirstMaxUnique(ks, i);
    }
    if forall i :: 0 <= i < |rows| ==> !BaseNeed(rows[i]) {
      FirstMaxUnique(ks, 0);
    }
  }

  /** The walk as written obeys the three selection rules. */
  lemma AsWrittenFollowsRules(rows: seq<Row>)
    requires |rows| > 0
    ensures forall i :: (0 <= i < |rows| && Complete(rows[i])
              && (forall q :: 0 <= q < i ==> !Complete(rows[q])))
              ==> FirstMax(AsWrittenLevels(rows)) == i
    ensures (exists i :: 0 <= i < |rows| && BaseNeed(rows[i]))
              ==> BaseNeed(rows[FirstMax(AsWrittenLevels(rows))])
    ensures (forall i :: 0 <= i < |rows| ==> !BaseNeed(rows[i]))
              ==> FirstMax(AsWrittenLevels(rows)) == 0
  {
    AsWrittenLevelsHaveShape(rows);
    SelectionRules(rows, AsWrittenLevels(rows));
  }

  /** The corrected walk obeys the same rules and, beyond them, picks the
      first row of the highest rank among those with the base columns. */
  lemma SelectBestRowIsBestRanked(rows: seq<Row>)
    requires |rows| > 0
    ensures forall i :: (0 <= i < |rows| && Complete(rows[i])
              && (forall q :: 0 <= q < i ==> !Complete(rows[q])))
              ==> FirstMax(Ranks(rows)) == i
    ensures (exists i :: 0 <= i < |rows| && BaseNeed(rows[i]))
              ==> BaseNeed(rows[FirstMax(Ranks(rows))])
    ensures (forall i :: 0 <= i < |rows| ==> !BaseNeed(rows[i])) ==> FirstMax(Ranks(rows)) == 0
    ensures forall i :: 0 <= i < |rows| ==> Rank(rows[i]) <= Rank(rows[FirstMax(Ranks(rows))])
  {
    RanksHaveShape(rows);
    SelectionRules(rows, Ranks(rows));
  }

  /** The walk as written can prefer a row without eccentricity to a later
      row with it: most recent row without the base columns, then a row with
      only the base columns, then a row that also has eccentricity. */
  lemma AsWrittenSkipsEccentricity()
    ensures var rows := [Row(0, false, false, false, false, false, false, false, false),
                         Row(1, true, false, true, false, false, false, false, false),
                         Row(2, true, false, true, false, true, false, false, false)];
            && FirstMax(AsWrittenLevels(rows)) == 1
            && FirstMax(Ranks(rows)) == 2
            && Rank(rows[1]) < Rank(rows[2])
  {
    var rows := [Row(0, false, false, false, false, false, false, false, false),
                 Row(1, true, false, true, false, false, false, false, false),
                 Row(2, true, false, true, false, true, false, false, false)];
    var ws := AsWrittenLevels(rows);
    assert ws == [-1, 1, 1];
    FirstMaxUnique(ws, 1);
    var ks := Ranks(rows);
    assert ks == [-1, 0, 1];
    FirstMaxUnique(ks, 2);
  }

  /** The levels a planet's rows are chosen by: the levels the walk as
      written gives (`corrected` false, what the source flags), or the
      corrected ranks. */
  function Levels(rows: seq<Row>, corrected: bool): (ks: seq<int>)
    requires |rows| > 0
    ensures |ks| == |rows|
  {
    if corrected then Ranks(rows) else AsWrittenLevels(rows)
  }

  /** The position of the row chosen for one planet. */
  function ChosenPos(rows: seq<Row>, corrected: bool): (p: nat)
    requires |rows| > 0
    ensures p < |rows|
  {
    FirstMax(Levels(rows, corrected))
  }

  /** The index chosen for one planet. */
  function ChosenIndex(rows: seq<Row>, corrected: bool): nat
    requires |rows| > 0
  {
    rows[ChosenPos(rows, corrected)].index
  }

  /** The index chosen for each planet, in planet order. */
  function ChosenIndexes(planets: seq<seq<Row>>, corrected: bool): (ch: seq<nat>)
    requires forall k :: 0 <= k < |planets| ==> |planets[k]| > 0
    ensures |ch| == |planets|
  {
    seq(|planets|, k requires 0 <= k < |planets| => ChosenIndex(planets[k], corrected))
  }

  /** Different planets own different rows of the extended table. */
  predicate DisjointPlanets(planets: seq<seq<Row>>)
  {
    forall k1, k2, i1, i2 :: 0 <= k1 < |planets| && 0 <= k2 < |planets| && k1 != k2
      && 0 <= i1 < |planets[k1]| && 0 <= i2 < |planets[k2]|
      ==> planets[k1][i1].index != planets[k2][i2].index
  }

  /** Exactly one of each planet's rows carries a chosen index: the one at
      the first maximum of its levels. */
  lemma OneChosenRowPerPlanet(planets: seq<seq<Row>>, corrected: bool, k: nat, i: nat)
    requires forall k :: 0 <= k < |planets| ==> |planets[k]| > 0 && DistinctIndexes(planets[k])
    requires DisjointPlanets(planets)
    requires k < |planets| && i < |planets[k]|
    ensures (planets[k][i].index in ChosenIndexes(planets, corrected))
              == (i == ChosenPos(planets[k], corrected))
  {
    var ch := ChosenIndexes(planets, corrected);
    assert ch[k] == planets[k][ChosenPos(planets[k], corrected)].index;
    if planets[k][i].index in ch {
      var k' :| 0 <= k' < |planets| && ch[k'] == planets[k][i].index;
      var c := ChosenPos(planets[k'], corrected);
      assert planets[k'][c].index == planets[k][i].index;
      assert k' == k;
    }
  }

  /** One planet's walk, as written or corrected. */
  method ChooseRow(rows: seq<Row>, corrected: bool) returns (goodIdx: nat)
    requires |rows| > 0 && DistinctIndexes(rows)
    ensures goodIdx == ChosenIndex(rows, corrected)
  {
    var idx;
    if corrected {
      idx := SelectBestRow(rows);
    } else {
      idx := SelectBestRowAsWritten(rows);
    }
    goodIdx := idx;
  }

  /** The loop over planets: each planet's chosen row gets `best_data = 1`.
      With `corrected` false this is the source's flag write, driven by the
      walk as written; with `corrected` true, by the corrected walk. */
  method MarkBestRows(best: array<int>, planets: seq<seq<Row>>, corrected: bool)
    requires forall k :: 0 <= k < |planets| ==> |planets[k]| > 0 && DistinctIndexes(planets[k])
    requires forall k, i :: 0 <= k < |planets| && 0 <= i < |planets[k]| ==> planets[k][i].index < best.Length
    modifies best
    ensures forall x :: 0 <= x < best.Length ==>
      best[x] == if x in ChosenIndexes(planets, corrected) then 1 else old(best[x])
  {
    ghost var ch := ChosenIndexes(planets, corrected);
    var k := 0;
    while k < |planets|
      invariant 0 <= k <= |planets|
      invariant forall x :: 0 <= x < best.Length ==>
        best[x] == if x in ch[..k] then 1 else old(best[x])
    {
      var goodIdx := ChooseRow(planets[k], corrected);
      assert goodIdx == ch[k] == planets[k][ChosenPos(planets[k], corrected)].index;
      best[goodIdx] := 1;
      assert ch[..k + 1] == ch[..k] + [goodIdx];
      k := k + 1;
    }
    assert ch[..k] == ch;
  }
}
