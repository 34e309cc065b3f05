/**
 * Keeping a chosen list of columns, in the order chosen, and taking the
 * numeric columns shown in the chart.
 */
module Projection {
  import opened Results
  import opened Seqs
  import opened Tables

  /** A selection named a column the table does not have. */
  datatype ProjectError = UnknownColumn(name: string)

  /** How many numeric columns the chart shows. */
  const ChartColumns: nat := 2

  /** The first column with the given name, if there is one. */
  function Lookup(cols: seq<Column>, name: string): (r: Option<Column>)
    ensures r.None? <==> forall j :: 0 <= j < |cols| ==> cols[j].name != name
    ensures r.Some? ==> r.value in cols && r.value.name == name
  {
    if cols == [] then None
    else if cols[0].name == name then Some(cols[0])
    else Lookup(cols[1..], name)
  }

  /** In a table with unique names, the column carrying a name is the one found. */
  lemma LookupUnique(t: Table, j: nat)
    requires WellFormed(t) && j < |t.columns|
    ensures Lookup(t.columns, t.columns[j].name) == Some(t.columns[j])
  {
    var r := Lookup(t.columns, t.columns[j].name);
    var i :| 0 <= i < |t.columns| && t.columns[i] == r.value;
    assert Names(t)[i] == Names(t)[j];
  }

  /** The selected columns in selection order, or the first name that is not a column. */
  function SelectColumns(cols: seq<Column>, selection: seq<string>): (r: Result<seq<Column>, ProjectError>)
    ensures r.Ok? <==> forall k :: 0 <= k < |selection| ==> exists j :: 0 <= j < |cols| && cols[j].name == selection[k]
    ensures r.Ok? ==> |r.value| == |selection|
    ensures r.Ok? ==> forall k :: 0 <= k < |selection| ==> r.value[k] in cols && r.value[k].name == selection[k]
    ensures r.Err? ==> r.error.name in selection && forall j :: 0 <= j < |cols| ==> cols[j].name != r.error.name
  {
    if selection == [] then Ok([])
    else
      match Lookup(cols, selection[0])
      case None => Err(UnknownColumn(selection[0]))
      case Some(c) =>
        match SelectColumns(cols, selection[1..])
        case Err(e) => Err(e)
        case Ok(rest) =>
          assert forall k :: 1 <= k < |selection| ==> selection[k] == selection[1..][k - 1];
          Ok([c] + rest)
  }

  /**
   * Keep exactly the selected columns, in selection order, with their cells
   * unchanged and the table's height kept; a name the table does not have
   * fails the whole projection.
   */
  function Project(t: Table, selection: seq<string>): (r: Result<Table, ProjectError>)
    requires WellFormed(t)
    ensures r.Ok? <==> forall k :: 0 <= k < |selection| ==> selection[k] in Names(t)
    ensures r.Err? ==> r.error.name in selection && r.error.name !in Names(t)
    ensures r.Ok? ==> Names(r.value) == selection && r.value.height == t.height
    ensures r.Ok? ==> forall k :: 0 <= k < |selection| ==> r.value.columns[k] in t.columns
    ensures r.Ok? ==> Rectangular(r.value)
    ensures r.Ok? && Distinct(selection) ==> WellFormed(r.value)
  {
    match SelectColumns(t.columns, selection)
    case Err(e) => Err(e)
    case Ok(cols) =>
      var p := Table(cols, t.height);
      assert Names(p) == selection;
      Ok(p)
  }

  /** In a table with unique names, two of its columns with the same name are the same column. */
  lemma SameNameSameColumn(t: Table, c: Column, d: Column)
    requires WellFormed(t) && c in t.columns && d in t.columns && c.name == d.name
    ensures c == d
  {
    var i :| 0 <= i < |t.columns| && t.columns[i] == c;
    var j :| 0 <= j < |t.columns| && t.columns[j] == d;
    assert Names(t)[i] == Names(t)[j];
  }

  /** A projected column is the table's column of that name, cells included. */
  lemma ProjectKeepsColumns(t: Table, selection: seq<string>)
    requires WellFormed(t)
    requires forall k :: 0 <= k < |selection| ==> selection[k] in Names(t)
    ensures Project(t, selection).Ok?
    ensures forall k, j :: 0 <= k < |selection| && 0 <= j < |t.columns| && t.columns[j].name == selection[k] ==>
              Project(t, selection).value.columns[k] == t.columns[j]
  {
    var p := Project(t, selection).value;
    forall k, j | 0 <= k < |selection| && 0 <= j < |t.columns| && t.columns[j].name == selection[k]
      ensures p.columns[k] == t.columns[j]
    {
      assert Names(p)[k] == selection[k];
      SameNameSameColumn(t, p.columns[k], t.columns[j]);
    }
  }

  /** Selecting every column in table order (the default selection) is the identity. */
  lemma ProjectAll(t: Table)
    requires WellFormed(t)
    ensures Project(t, Names(t)) == Ok(t)
  {
    var p := Project(t, Names(t)).value;
    forall j | 0 <= j < |t.columns|
      ensures p.columns[j] == t.columns[j]
    {
      SameNameSameColumn(t, p.columns[j], t.columns[j]);
    }
    assert p.columns == t.columns;
  }

  /** Selecting nothing leaves a table of no columns and the same height. */
  lemma ProjectNone(t: Table)
    requires WellFormed(t)
    ensures Project(t, []) == Ok(Table([], t.height))
  {
  }

  /** Narrowing to a selection and then to names drawn from it is narrowing once to the second selection. */
  lemma ProjectTwice(t: Table, first: seq<string>, second: seq<string>)
    requires WellFormed(t) && Distinct(first)
    requires Project(t, first).Ok?
    requires forall k :: 0 <= k < |second| ==> second[k] in first
    ensures Project(Project(t, first).value, second) == Project(t, second)
  {
    var p := Project(t, first).value;
    assert forall k :: 0 <= k < |second| ==> second[k] in Names(p);
    var a := Project(p, second).value;
    assert forall k :: 0 <= k < |second| ==> second[k] in Names(t) by {
      forall k | 0 <= k < |second|
        ensures second[k] in Names(t)
      {
        var i :| 0 <= i < |first| && first[i] == second[k];
      }
    }
    var b := Project(t, second).value;
    forall k | 0 <= k < |second|
      ensures a.columns[k] == b.columns[k]
    {
      var i :| 0 <= i < |p.columns| && p.columns[i] == a.columns[k];
      assert Names(a)[k] == second[k] == Names(b)[k];
      SameNameSameColumn(t, a.columns[k], b.columns[k]);
    }
    assert a.columns == b.columns;
  }

  /** The positions of the numeric columns, in table order. */
  function NumericPositions(t: Table): (r: seq<nat>)
    ensures Increasing(r) && Below(r, |t.columns|)
    ensures forall j :: 0 <= j < |t.columns| ==> (j in r <==> t.columns[j].kind == Numeric)
  {
    var numeric := (j: nat) => j < |t.columns| && t.columns[j].kind == Numeric;
    var r := Positions(|t.columns|, numeric);
    PositionsComplete(|t.columns|, numeric);
    assert forall j :: 0 <= j < |t.columns| && j in r ==> t.columns[j].kind == Numeric by {
      forall j | 0 <= j < |t.columns| && j in r
        ensures t.columns[j].kind == Numeric
      {
        var k :| 0 <= k < |r| && r[k] == j;
      }
    }
    r
  }

  /** The chart data: the first two numeric columns of the table, in table order, all rows. */
  function NumericPreview(t: Table): (r: Table)
    requires Rectangular(t)
    ensures Rectangular(r) && r.height == t.height
    ensures WellFormed(t) ==> WellFormed(r)
    ensures var idx := NumericPositions(t);
      |r.columns| == (if |idx| < ChartColumns then |idx| else ChartColumns) &&
      forall k :: 0 <= k < |r.columns| ==> r.columns[k] == t.columns[idx[k]]
  {
    var idx := NumericPositions(t);
    var n := if |idx| < ChartColumns then |idx| else ChartColumns;
    var r := Table(seq(n, k requires 0 <= k < n => t.columns[idx[k]]), t.height);
    assert WellFormed(t) ==> Distinct(Names(r)) by {
      if WellFormed(t) {
        forall a, b | 0 <= a < b < n
          ensures Names(r)[a] != Names(r)[b]
        {
          assert Names(r)[a] == Names(t)[idx[a]] && Names(r)[b] == Names(t)[idx[b]];
        }
      }
    }
    r
  }
}
