/** The frontline target finder: in every row of the defending army, the living unit nearest
    the attacker is the only one that can be attacked in melee. When the left army is the
    target the nearest unit is the one with the largest y, otherwise the one with the
    smallest y. */
module SuitableTargets {
  import opened Basics
  import opened Units

  /** A row as the finder receives it: the list may be null, and so may its entries. */
  type Row = Option<seq<Option<Unit>>>

  /** The starting value of `extremeY` (Integer.MIN_VALUE or Integer.MAX_VALUE). */
  function Sentinel(isLeftArmyTarget: bool): int {
    if isLeftArmyTarget then IntMin else IntMax
  }

  /** `a` is strictly nearer the attacker than `b`. */
  predicate Beyond(a: int, b: int, isLeftArmyTarget: bool) {
    if isLeftArmyTarget then a > b else a < b
  }

  /** An entry the scan considers: non-null and alive. */
  predicate Living(e: Option<Unit>) {
    e.Some? && IsAlive(e.value)
  }

  /** The y coordinate the scan holds after looking at `row` up to the chosen index. */
  function ExtremeY(row: seq<Option<Unit>>, pick: Option<nat>, isLeftArmyTarget: bool): int
    requires pick.Some? ==> pick.value < |row| && row[pick.value].Some?
  {
    if pick.Some? then row[pick.value].value.y else Sentinel(isLeftArmyTarget)
  }

  /** The index of the unit the scan of one row selects, or None. The scan keeps the first
      living unit that is strictly beyond everything seen so far, starting from the sentinel. */
  function Pick(row: seq<Option<Unit>>, isLeftArmyTarget: bool): (r: Option<nat>)
    ensures r.Some? ==> r.value < |row| && Living(row[r.value])
    // the chosen unit is strictly beyond the sentinel
    ensures r.Some? ==> Beyond(row[r.value].value.y, Sentinel(isLeftArmyTarget), isLeftArmyTarget)
    // no living unit of the row is nearer the attacker than the chosen one
    ensures r.Some? ==> forall j :: 0 <= j < |row| && Living(row[j]) ==>
              !Beyond(row[j].value.y, row[r.value].value.y, isLeftArmyTarget)
    // every living unit before it is strictly farther: ties go to the first one
    ensures r.Some? ==> forall j :: 0 <= j < r.value && Living(row[j]) ==>
              Beyond(row[r.value].value.y, row[j].value.y, isLeftArmyTarget)
    // nothing is chosen exactly when no living unit gets past the sentinel
    ensures r.None? <==> forall j :: 0 <= j < |row| && Living(row[j]) ==>
              !Beyond(row[j].value.y, Sentinel(isLeftArmyTarget), isLeftArmyTarget)
  {
    if row == [] then None
    else
      var last := |row| - 1;
      var p := Pick(row[..last], isLeftArmyTarget);
      assert forall j :: 0 <= j < last ==> row[..last][j] == row[j];
      if Living(row[last]) && Beyond(row[last].value.y, ExtremeY(row, p, isLeftArmyTarget), isLeftArmyTarget)
      then Some(last)
      else p
  }

  /** What one row contributes to the result: its chosen unit, or nothing. */
  function RowChoice(row: Row, isLeftArmyTarget: bool): (r: seq<Unit>)
    ensures |r| <= 1
  {
    if row.None? || row.value == [] then []
    else
      match Pick(row.value, isLeftArmyTarget)
      case None => []
      case Some(i) => [row.value[i].value]
  }

  /** `u` is an entry of `row`. */
  predicate InRow(u: Unit, row: Row) {
    row.Some? && exists j :: 0 <= j < |row.value| && row.value[j] == Some(u)
  }

  /** A null row, an empty row and a row without a living unit past the sentinel contribute
      nothing; otherwise the row contributes one living member that no living member of the
      row is beyond. */
  lemma RowChoiceMeaning(row: Row, isLeftArmyTarget: bool)
    ensures RowChoice(row, isLeftArmyTarget) == [] <==>
      row.None? || forall j :: 0 <= j < |row.value| && Living(row.value[j]) ==>
        !Beyond(row.value[j].value.y, Sentinel(isLeftArmyTarget), isLeftArmyTarget)
    ensures RowChoice(row, isLeftArmyTarget) != [] ==>
      var u := RowChoice(row, isLeftArmyTarget)[0];
      && IsAlive(u) && InRow(u, row)
      && forall j :: 0 <= j < |row.value| && Living(row.value[j]) ==>
           !Beyond(row.value[j].value.y, u.y, isLeftArmyTarget)
  {
    if row.Some? && row.value != [] {
      var p := Pick(row.value, isLeftArmyTarget);
      if p.Some? {
        assert row.value[p.value] == Some(RowChoice(row, isLeftArmyTarget)[0]);
      }
    }
  }

  /** The result of the finder for the first rows of `unitsByRow`: the choices in row order. */
  function SuitableUnits(unitsByRow: seq<Row>, isLeftArmyTarget: bool): seq<Unit>
  {
    if unitsByRow == [] then []
    else
      var n := |unitsByRow| - 1;
      SuitableUnits(unitsByRow[..n], isLeftArmyTarget) + RowChoice(unitsByRow[n], isLeftArmyTarget)
  }

  /** The choice after one more entry: the entry when it is living and strictly beyond the
      value held so far, otherwise the earlier choice. */
  lemma PickStep(units: seq<Option<Unit>>, j: nat, isLeftArmyTarget: bool)
    requires j < |units|
    ensures var p := Pick(units[..j], isLeftArmyTarget);
      && (p.Some? ==> p.value < j && units[p.value].Some?)
      && Pick(units[..j + 1], isLeftArmyTarget) ==
           if Living(units[j]) && Beyond(units[j].value.y, ExtremeY(units, p, isLeftArmyTarget), isLeftArmyTarget)
           then Some(j) else p
  {
    var s := units[..j + 1];
    assert s[..j] == units[..j];
    var p := Pick(units[..j], isLeftArmyTarget);
    if p.Some? {
      assert units[..j][p.value] == units[p.value] == s[p.value];
    }
  }

  /** The scan of one row: the index of the living unit kept in `extremeUnit`, if any. */
  method ScanRow(units: seq<Option<Unit>>, isLeftArmyTarget: bool) returns (extremeUnit: Option<nat>)
    ensures extremeUnit == Pick(units, isLeftArmyTarget)
  {
    hide Pick;
    extremeUnit := None;
    var extremeY := Sentinel(isLeftArmyTarget);
    assert units[..0] == [];
    for j := 0 to |units|
      invariant extremeUnit == Pick(units[..j], isLeftArmyTarget)
      invariant extremeUnit.Some? ==> extremeUnit.value < j && units[extremeUnit.value].Some?
      invariant extremeY == ExtremeY(units, extremeUnit, isLeftArmyTarget)
    {
      PickStep(units, j, isLeftArmyTarget);
      var unit := units[j];
      if unit.None? || !IsAlive(unit.value) {
        continue;
      }
      var unitY := unit.value.y;
      if isLeftArmyTarget {
        if unitY > extremeY {
          extremeY := unitY;
          extremeUnit := Some(j);
        }
      } else {
        if unitY < extremeY {
          extremeY := unitY;
          extremeUnit := Some(j);
        }
      }
    }
    assert units[..|units|] == units;
  }

  /** `getSuitableUnits`: for every row in turn, scan it for the living unit nearest the
      attacker and collect it. */
  method GetSuitableUnits(unitsByRow: seq<Row>, isLeftArmyTarget: bool) returns (suitableUnits: seq<Unit>)
    ensures suitableUnits == SuitableUnits(unitsByRow, isLeftArmyTarget)
  {
    hide Pick;
    suitableUnits := [];
    for r := 0 to |unitsByRow|
      invariant suitableUnits == SuitableUnits(unitsByRow[..r], isLeftArmyTarget)
    {
      assert unitsByRow[..r + 1][..r] == unitsByRow[..r];
      var row := unitsByRow[r];
      if row.None? || row.value == [] {
        continue;
      }
      var units := row.value;
      var extremeUnit := ScanRow(units, isLeftArmyTarget);
      if extremeUnit.Some? {
        suitableUnits := suitableUnits + [units[extremeUnit.value].value];
      }
    }
    assert unitsByRow[..|unitsByRow|] == unitsByRow;
  }

  /** The indices of the rows that contribute a unit, in increasing order. */
  function ContributingRows(unitsByRow: seq<Row>, isLeftArmyTarget: bool): (r: seq<nat>)
  {
    if unitsByRow == [] then []
    else
      var n := |unitsByRow| - 1;
      ContributingRows(unitsByRow[..n], isLeftArmyTarget)
        + (if RowChoice(unitsByRow[n], isLeftArmyTarget) != [] then [n] else [])
  }

  /** The contributing rows are increasing indices of rows that contribute. */
  lemma {:induction false} ContributingRowsIncrease(unitsByRow: seq<Row>, isLeftArmyTarget: bool)
    ensures var rows := ContributingRows(unitsByRow, isLeftArmyTarget);
      && |rows| <= |unitsByRow|
      && (forall k :: 0 <= k < |rows| ==> rows[k] < |unitsByRow|)
      && (forall a, b :: 0 <= a < b < |rows| ==> rows[a] < rows[b])
  {
    if unitsByRow != [] {
      ContributingRowsIncrease(unitsByRow[..|unitsByRow| - 1], isLeftArmyTarget);
    }
  }

  /** A row contributes exactly when it has a choice. */
  lemma {:induction false} ContributingRowsExact(unitsByRow: seq<Row>, isLeftArmyTarget: bool)
    ensures forall i :: 0 <= i < |unitsByRow| ==>
      (i in ContributingRows(unitsByRow, isLeftArmyTarget) <==> RowChoice(unitsByRow[i], isLeftArmyTarget) != [])
  {
    if unitsByRow != [] {
      var n := |unitsByRow| - 1;
      var prefix := unitsByRow[..n];
      ContributingRowsExact(prefix, isLeftArmyTarget);
      ContributingRowsIncrease(prefix, isLeftArmyTarget);
      var rows0 := ContributingRows(prefix, isLeftArmyTarget);
      var rows := ContributingRows(unitsByRow, isLeftArmyTarget);
      assert n !in rows0;
      forall i | 0 <= i < |unitsByRow|
        ensures i in rows <==> RowChoice(unitsByRow[i], isLeftArmyTarget) != []
      {
        if i < n {
          assert prefix[i] == unitsByRow[i];
          assert i in rows <==> i in rows0;
        }
      }
    }
  }

  /** The result holds at most one unit per row, in row order: its k-th unit is the choice of
      the k-th contributing row. */
  lemma {:induction false} SuitableUnitsByRow(unitsByRow: seq<Row>, isLeftArmyTarget: bool)
    ensures var r, rows := SuitableUnits(unitsByRow, isLeftArmyTarget), ContributingRows(unitsByRow, isLeftArmyTarget);
      && |r| == |rows| <= |unitsByRow|
      && forall k :: 0 <= k < |rows| ==>
           rows[k] < |unitsByRow| && [r[k]] == RowChoice(unitsByRow[rows[k]], isLeftArmyTarget)
  {
    ContributingRowsIncrease(unitsByRow, isLeftArmyTarget);
    if unitsByRow != [] {
      var n := |unitsByRow| - 1;
      var prefix := unitsByRow[..n];
      SuitableUnitsByRow(prefix, isLeftArmyTarget);
      ContributingRowsIncrease(prefix, isLeftArmyTarget);
      var r0, rows0 := SuitableUnits(prefix, isLeftArmyTarget), ContributingRows(prefix, isLeftArmyTarget);
      var c := RowChoice(unitsByRow[n], isLeftArmyTarget);
      var r, rows := SuitableUnits(unitsByRow, isLeftArmyTarget), ContributingRows(unitsByRow, isLeftArmyTarget);
      assert r == r0 + c;
      assert rows == rows0 + (if c != [] then [n] else []);
      forall k | 0 <= k < |rows0|
        ensures rows[k] < |unitsByRow| && [r[k]] == RowChoice(unitsByRow[rows[k]], isLeftArmyTarget)
      {
        assert rows[k] == rows0[k] && r[k] == r0[k];
        assert prefix[rows0[k]] == unitsByRow[rows0[k]];
      }
    }
  }

  /** Every unit of the result is alive and stands in one of the rows. */
  lemma SuitableUnitsAreLivingMembers(unitsByRow: seq<Row>, isLeftArmyTarget: bool)
    ensures forall u :: u in SuitableUnits(unitsByRow, isLeftArmyTarget) ==>
      IsAlive(u) && exists i :: 0 <= i < |unitsByRow| && InRow(u, unitsByRow[i])
  {
    SuitableUnitsByRow(unitsByRow, isLeftArmyTarget);
    ContributingRowsIncrease(unitsByRow, isLeftArmyTarget);
    var r, rows := SuitableUnits(unitsByRow, isLeftArmyTarget), ContributingRows(unitsByRow, isLeftArmyTarget);
    forall u | u in r
      ensures IsAlive(u) && exists i :: 0 <= i < |unitsByRow| && InRow(u, unitsByRow[i])
    {
      var k :| 0 <= k < |r| && r[k] == u;
      RowChoiceMeaning(unitsByRow[rows[k]], isLeftArmyTarget);
    }
  }

  /** A row with living units at y = 2, 5 and 9: the target finder picks y = 9 when the left
      army is the target and y = 2 otherwise; a row of dead units gives nothing. */
  lemma ExampleRow(a: Unit, b: Unit, c: Unit)
    requires a.y == 2 && b.y == 5 && c.y == 9
    ensures IsAlive(a) && IsAlive(b) && IsAlive(c) ==>
      RowChoice(Some([Some(a), Some(b), Some(c)]), true) == [c]
      && RowChoice(Some([Some(a), Some(b), Some(c)]), false) == [a]
    ensures !IsAlive(a) && !IsAlive(b) && !IsAlive(c) ==>
      RowChoice(Some([Some(a), Some(b), Some(c)]), true) == []
      && RowChoice(Some([Some(a), Some(b), Some(c)]), false) == []
  {
    var row := [Some(a), Some(b), Some(c)];
    if IsAlive(a) && IsAlive(b) && IsAlive(c) {
      assert Living(row[2]) && Living(row[0]);
    }
  }
}
