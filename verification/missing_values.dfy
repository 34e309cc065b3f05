/**
 * Filling missing cells of numeric columns with the mean of the column's
 * present values, taken before any cell is filled. A numeric column without
 * any value has no mean and stays as it is; other columns are not touched.
 */
module MissingValues {
  import opened Tables

  /** The numbers present in a column, in order. */
  function Values(cells: seq<Cell>): (r: seq<real>)
    ensures |r| <= |cells|
  {
    if cells == [] then []
    else (if cells[0].Num? then [cells[0].value] else []) + Values(cells[1..])
  }

  function Sum(xs: seq<real>): (r: real) {
    if xs == [] then 0.0 else xs[0] + Sum(xs[1..])
  }

  /** How many cells are missing. */
  function MissingCount(cells: seq<Cell>): (r: nat)
    ensures r <= |cells|
  {
    if cells == [] then 0
    else (if cells[0].Missing? then 1 else 0) + MissingCount(cells[1..])
  }

  /** Some cell holds a number. */
  predicate HasNumber(cells: seq<Cell>) {
    exists i :: 0 <= i < |cells| && cells[i].Num?
  }

  /** A column has a number exactly when its list of values is non-empty. */
  lemma {:induction false} HasNumberValues(cells: seq<Cell>)
    ensures HasNumber(cells) <==> |Values(cells)| > 0
  {
    if cells != [] {
      HasNumberValues(cells[1..]);
      if HasNumber(cells[1..]) {
        var i :| 0 <= i < |cells[1..]| && cells[1..][i].Num?;
        assert cells[i + 1].Num?;
      }
      if HasNumber(cells) && !cells[0].Num? {
        var i :| 0 <= i < |cells| && cells[i].Num?;
        assert cells[1..][i - 1].Num?;
      }
    }
  }

  /** m added to itself k times. */
  function Repeat(k: nat, m: real): (r: real) {
    if k == 0 then 0.0 else m + Repeat(k - 1, m)
  }

  /** Adding m to itself k times is multiplying it by k. */
  lemma {:induction false} RepeatIsProduct(k: nat, m: real)
    ensures Repeat(k, m) == m * (k as real)
  {
    if k > 0 {
      RepeatIsProduct(k - 1, m);
      assert m * (k as real) == m + m * ((k - 1) as real);
    }
  }

  /** The arithmetic mean of the numbers present: the value which, counted once per number, gives their sum. */
  function Mean(cells: seq<Cell>): (m: real)
    requires HasNumber(cells)
    ensures Repeat(|Values(cells)|, m) == Sum(Values(cells))
  {
    HasNumberValues(cells);
    var n := |Values(cells)|;
    var m := Sum(Values(cells)) / (n as real);
    RepeatIsProduct(n, m);
    m
  }

  /** Replace every missing cell by m. */
  function FillCells(cells: seq<Cell>, m: real): (r: seq<Cell>)
    ensures |r| == |cells|
    ensures forall i :: 0 <= i < |cells| ==> r[i] == (if cells[i].Missing? then Num(m) else cells[i])
  {
    if cells == [] then []
    else [if cells[0].Missing? then Num(m) else cells[0]] + FillCells(cells[1..], m)
  }

  /** Fill one column: only a numeric column that has a number changes. */
  function FillColumn(col: Column): (r: Column)
    ensures r.name == col.name && r.kind == col.kind && |r.cells| == |col.cells|
    ensures forall i :: 0 <= i < |col.cells| && !col.cells[i].Missing? ==> r.cells[i] == col.cells[i]
    ensures forall i :: 0 <= i < |col.cells| && col.cells[i].Missing? ==>
              r.cells[i] == (if col.kind == Numeric && HasNumber(col.cells) then Num(Mean(col.cells)) else Missing)
  {
    if col.kind == Numeric && HasNumber(col.cells) then col.(cells := FillCells(col.cells, Mean(col.cells)))
    else col
  }

  /** Fill the missing cells of every numeric column with that column's mean. */
  function FillMissing(t: Table): (r: Table)
    requires WellFormed(t)
    ensures WellFormed(r) && SameSchema(t, r) && Names(r) == Names(t) && r.height == t.height
    ensures forall j :: 0 <= j < |t.columns| && t.columns[j].kind == NonNumeric ==>
              r.columns[j] == t.columns[j]
    ensures forall j, i :: 0 <= j < |t.columns| && 0 <= i < t.height && !t.columns[j].cells[i].Missing? ==>
              r.columns[j].cells[i] == t.columns[j].cells[i]
    ensures forall j, i :: 0 <= j < |t.columns| && 0 <= i < t.height && t.columns[j].cells[i].Missing? ==>
              r.columns[j].cells[i] ==
                (if t.columns[j].kind == Numeric && HasNumber(t.columns[j].cells)
                 then Num(Mean(t.columns[j].cells)) else Missing)
  {
    var r := t.(columns := seq(|t.columns|, j requires 0 <= j < |t.columns| => FillColumn(t.columns[j])));
    assert Names(r) == Names(t);
    r
  }

  /** After filling, a numeric column that has a number has no missing cell left. */
  lemma FillMissingLeavesNoGap(t: Table)
    requires WellFormed(t)
    ensures forall j, i ::
              (0 <= j < |t.columns| && 0 <= i < t.height &&
               t.columns[j].kind == Numeric && HasNumber(t.columns[j].cells)) ==>
              FillMissing(t).columns[j].cells[i].Num?
  {
  }

  /** A numeric column has a number after filling exactly when it had one before. */
  lemma FillColumnHasNumber(col: Column)
    ensures HasNumber(FillColumn(col).cells) <==> HasNumber(col.cells)
  {
    if HasNumber(FillColumn(col).cells) {
      var i :| 0 <= i < |FillColumn(col).cells| && FillColumn(col).cells[i].Num?;
      if !col.cells[i].Num? {
        assert col.cells[i].Missing?;
      }
    }
  }

  /** Filling a column twice is filling it once. */
  lemma FillColumnIdempotent(col: Column)
    ensures FillColumn(FillColumn(col)) == FillColumn(col)
  {
    var once := FillColumn(col);
    if col.kind == Numeric && HasNumber(col.cells) {
      FillColumnHasNumber(col);
      assert forall i :: 0 <= i < |once.cells| ==> !once.cells[i].Missing?;
      assert FillCells(once.cells, Mean(once.cells)) == once.cells;
    }
  }

  /** Filling missing values a second time is a no-op. */
  lemma FillMissingIdempotent(t: Table)
    requires WellFormed(t)
    ensures FillMissing(FillMissing(t)) == FillMissing(t)
  {
    var once := FillMissing(t);
    forall j | 0 <= j < |t.columns|
      ensures FillMissing(once).columns[j] == once.columns[j]
    {
      FillColumnIdempotent(t.columns[j]);
    }
  }

  /** Filling adds one value per missing cell. */
  lemma {:induction false} FillCellsCount(cells: seq<Cell>, m: real)
    requires forall i :: 0 <= i < |cells| ==> Fits(Numeric, cells[i])
    ensures |Values(FillCells(cells, m))| == |Values(cells)| + MissingCount(cells)
  {
    if cells != [] {
      FillCellsCount(cells[1..], m);
    }
  }

  /** Filling adds m to the sum once per missing cell. */
  lemma {:induction false} FillCellsSum(cells: seq<Cell>, m: real)
    requires forall i :: 0 <= i < |cells| ==> Fits(Numeric, cells[i])
    ensures Sum(Values(FillCells(cells, m))) == Sum(Values(cells)) + Repeat(MissingCount(cells), m)
  {
    if cells != [] {
      var tail := FillCells(cells[1..], m);
      FillCellsSum(cells[1..], m);
      var f := FillCells(cells, m);
      assert f[1..] == tail;
      if cells[0].Missing? {
        SumCons(m, Values(tail));
        assert Values(f) == [m] + Values(tail);
        assert Values(cells) == Values(cells[1..]);
      } else {
        var v := cells[0].value;
        SumCons(v, Values(tail));
        SumCons(v, Values(cells[1..]));
      }
    }
  }

  lemma SumCons(x: real, ys: seq<real>)
    ensures Sum([x] + ys) == x + Sum(ys)
  {
    assert ([x] + ys)[1..] == ys;
  }

  /** Counting m over two runs is counting it over their joint length. */
  lemma {:induction false} RepeatAdd(n: nat, k: nat, m: real)
    ensures Repeat(n + k, m) == Repeat(n, m) + Repeat(k, m)
  {
    if k > 0 {
      RepeatAdd(n, k - 1, m);
    }
  }

  /** Two values counted the same non-zero number of times to the same total are equal. */
  lemma RepeatInjective(n: nat, a: real, b: real)
    requires n > 0 && Repeat(n, a) == Repeat(n, b)
    ensures a == b
  {
    RepeatIsProduct(n, a);
    RepeatIsProduct(n, b);
    Cancel(a, b, n as real);
  }

  /** If m is the average of a column's numbers, it is still their average once the gaps hold m. */
  lemma FillCellsKeepsAverage(cells: seq<Cell>, m: real)
    requires forall i :: 0 <= i < |cells| ==> Fits(Numeric, cells[i])
    requires Repeat(|Values(cells)|, m) == Sum(Values(cells))
    ensures Repeat(|Values(FillCells(cells, m))|, m) == Sum(Values(FillCells(cells, m)))
  {
    FillCellsCount(cells, m);
    FillCellsSum(cells, m);
    RepeatAdd(|Values(cells)|, MissingCount(cells), m);
  }

  /** A non-zero factor cancels. */
  lemma Cancel(x: real, y: real, z: real)
    requires z != 0.0 && x * z == y * z
    ensures x == y
  {
    assert (x - y) * z == 0.0;
  }

  /** Mean filling leaves the mean of a numeric column unchanged. */
  lemma FillColumnKeepsMean(col: Column)
    requires col.kind == Numeric && HasNumber(col.cells)
    requires forall i :: 0 <= i < |col.cells| ==> Fits(Numeric, col.cells[i])
    ensures HasNumber(FillColumn(col).cells)
    ensures Mean(FillColumn(col).cells) == Mean(col.cells)
  {
    var m := Mean(col.cells);
    var filled := FillColumn(col).cells;
    assert filled == FillCells(col.cells, m);
    FillColumnHasNumber(col);
    HasNumberValues(filled);
    FillCellsKeepsAverage(col.cells, m);
    RepeatInjective(|Values(filled)|, Mean(filled), m);
  }

  /** Worked case: a numeric column 2, missing, 4 becomes 2, 3, 4. */
  lemma FillColumnExample()
    ensures FillColumn(Column("x", Numeric, [Num(2.0), Missing, Num(4.0)]))
         == Column("x", Numeric, [Num(2.0), Num(3.0), Num(4.0)])
  {
    var cells := [Num(2.0), Missing, Num(4.0)];
    assert cells[0].Num?;
    assert cells[1..] == [Missing, Num(4.0)];
    assert cells[1..][1..] == [Num(4.0)];
    assert Values(cells) == [2.0, 4.0];
    assert Sum([2.0, 4.0]) == 6.0;
    assert Mean(cells) == 3.0;
    assert FillCells(cells, 3.0) == [Num(2.0), Num(3.0), Num(4.0)];
  }
}
