/**
 * The in-memory table: an ordered sequence of named columns, each with a
 * declared kind and a sequence of cells, all columns of the same height.
 * A table with no columns still has a height (a frame that keeps its rows).
 */
module Tables {
  import opened Seqs

  /** One scalar of a table; `Missing` is the absent-value marker. */
  datatype Cell = Missing | Num(value: real) | Text(text: string) | Bool(flag: bool)

  /** The declared kind of a column: numeric columns take part in mean filling and charts. */
  datatype Kind = Numeric | NonNumeric

  datatype Column = Column(name: string, kind: Kind, cells: seq<Cell>)

  datatype Table = Table(columns: seq<Column>, height: nat)

  /** A numeric column holds only numbers and missing markers. */
  predicate Fits(k: Kind, c: Cell) {
    k == Numeric ==> c.Missing? || c.Num?
  }

  predicate ColumnOk(col: Column, height: nat) {
    && |col.cells| == height
    && forall i :: 0 <= i < height ==> Fits(col.kind, col.cells[i])
  }

  /** The column names, in table order. */
  function Names(t: Table): (r: seq<string>)
    ensures |r| == |t.columns|
    ensures forall j :: 0 <= j < |r| ==> r[j] == t.columns[j].name
  {
    seq(|t.columns|, j requires 0 <= j < |t.columns| => t.columns[j].name)
  }

  /** Every column has the table's height and cells that fit its kind. */
  predicate Rectangular(t: Table) {
    forall j :: 0 <= j < |t.columns| ==> ColumnOk(t.columns[j], t.height)
  }

  /** A rectangular table whose column names are unique. */
  predicate WellFormed(t: Table) {
    Rectangular(t) && Distinct(Names(t))
  }

  /** The tables a reader can produce. */
  type WfTable = t: Table | WellFormed(t) witness Table([], 0)

  /** Same column names and kinds, in the same order. */
  predicate SameSchema(a: Table, b: Table) {
    && |a.columns| == |b.columns|
    && forall j :: 0 <= j < |a.columns| ==>
         a.columns[j].name == b.columns[j].name && a.columns[j].kind == b.columns[j].kind
  }

  /** Row i: the i-th cell of every column, in column order. */
  function Row(t: Table, i: nat): (r: seq<Cell>)
    requires WellFormed(t) && i < t.height
    ensures |r| == |t.columns|
    ensures forall j :: 0 <= j < |r| ==> r[j] == t.columns[j].cells[i]
  {
    seq(|t.columns|, j requires 0 <= j < |t.columns| => t.columns[j].cells[i])
  }

  /** All rows, top to bottom. */
  function Rows(t: Table): (r: seq<seq<Cell>>)
    requires WellFormed(t)
    ensures |r| == t.height
    ensures forall i :: 0 <= i < t.height ==> r[i] == Row(t, i)
  {
    seq(t.height, i requires 0 <= i < t.height => Row(t, i))
  }

  /** Keep the rows at the given positions, in the order given, in every column. */
  function SelectRows(t: Table, idx: seq<nat>): (r: Table)
    requires WellFormed(t) && Below(idx, t.height)
    ensures WellFormed(r) && SameSchema(t, r) && Names(r) == Names(t)
    ensures r.height == |idx|
    ensures forall j, k :: 0 <= j < |t.columns| && 0 <= k < |idx| ==>
              r.columns[j].cells[k] == t.columns[j].cells[idx[k]]
  {
    var r := Table(seq(|t.columns|, j requires 0 <= j < |t.columns| =>
                     t.columns[j].(cells := Pick(t.columns[j].cells, idx))), |idx|);
    assert Names(r) == Names(t);
    r
  }

  /** Selecting rows then reading rows is reading the selected rows. */
  lemma RowsSelectRows(t: Table, idx: seq<nat>)
    requires WellFormed(t) && Below(idx, t.height)
    ensures Rows(SelectRows(t, idx)) == Pick(Rows(t), idx)
  {
    var r := SelectRows(t, idx);
    forall k | 0 <= k < |idx|
      ensures Rows(r)[k] == Pick(Rows(t), idx)[k]
    {
      assert Row(r, k) == Row(t, idx[k]);
    }
  }

  /** Two tables with the same schema, height and cells are the same table. */
  lemma TableExtensionality(a: Table, b: Table)
    requires WellFormed(a) && WellFormed(b) && SameSchema(a, b) && a.height == b.height
    requires forall j, i :: 0 <= j < |a.columns| && 0 <= i < a.height ==>
               a.columns[j].cells[i] == b.columns[j].cells[i]
    ensures a == b
  {
    forall j | 0 <= j < |a.columns|
      ensures a.columns[j] == b.columns[j]
    {
      assert a.columns[j].cells == b.columns[j].cells;
    }
    assert a.columns == b.columns;
  }
}
