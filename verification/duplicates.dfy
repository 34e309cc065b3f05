/**
 * Removing exact duplicate rows, keeping the first occurrence of each and the
 * order of the survivors. Two rows are duplicates when every cell is equal,
 * a missing marker being equal to a missing marker.
 */
module Duplicates {
  import opened Seqs
  import opened Tables

  /** No earlier element equals s[i]. */
  predicate IsFirst<T(==)>(s: seq<T>, i: nat)
    requires i < |s|
  {
    forall j :: 0 <= j < i ==> s[j] != s[i]
  }

  /** The test FirstOccurrences selects positions by. */
  function FirstIn<T(==)>(s: seq<T>): (r: nat -> bool) {
    (i: nat) => i < |s| && IsFirst(s, i)
  }

  /** The positions of the first occurrence of every value, in increasing order. */
  function FirstOccurrences<T(==)>(s: seq<T>): (r: seq<nat>)
    ensures Increasing(r) && Below(r, |s|)
    ensures forall i :: 0 <= i < |s| ==> (i in r <==> IsFirst(s, i))
  {
    var r := Positions(|s|, FirstIn(s));
    PositionsComplete(|s|, FirstIn(s));
    assert forall i :: 0 <= i < |s| && i in r ==> IsFirst(s, i) by {
      forall i | 0 <= i < |s| && i in r
        ensures IsFirst(s, i)
      {
        var k :| 0 <= k < |r| && r[k] == i;
      }
    }
    r
  }

  /** The first occurrences of the values of s, in their original order. */
  function DedupSeq<T(==)>(s: seq<T>): (r: seq<T>) {
    Pick(s, FirstOccurrences(s))
  }

  /** Every value of s has a first occurrence. */
  lemma {:induction false} HasFirstOccurrence<T>(s: seq<T>, i: nat)
    requires i < |s|
    ensures exists f :: 0 <= f <= i && s[f] == s[i] && IsFirst(s, f)
  {
    if !IsFirst(s, i) {
      var j :| 0 <= j < i && s[j] == s[i];
      HasFirstOccurrence(s, j);
    }
  }

  /** No value survives twice. */
  lemma DedupSeqDistinct<T>(s: seq<T>)
    ensures Distinct(DedupSeq(s))
  {
    var idx := FirstOccurrences(s);
    forall a, b | 0 <= a < b < |idx|
      ensures DedupSeq(s)[a] != DedupSeq(s)[b]
    {
      assert idx[a] < idx[b] && idx[b] in idx;
      assert IsFirst(s, idx[b]);
    }
  }

  /** Every value of s survives, and nothing else does. */
  lemma DedupSeqSameValues<T>(s: seq<T>)
    ensures forall i :: 0 <= i < |s| ==> s[i] in DedupSeq(s)
    ensures forall k :: 0 <= k < |DedupSeq(s)| ==> DedupSeq(s)[k] in s
  {
    var idx := FirstOccurrences(s);
    forall i | 0 <= i < |s|
      ensures s[i] in DedupSeq(s)
    {
      HasFirstOccurrence(s, i);
      var f :| 0 <= f <= i && s[f] == s[i] && IsFirst(s, f);
      var k :| 0 <= k < |idx| && idx[k] == f;
      assert DedupSeq(s)[k] == s[i];
    }
  }

  /** A sequence without duplicates is its own deduplication. */
  lemma DedupSeqOfDistinct<T>(s: seq<T>)
    requires Distinct(s)
    ensures FirstOccurrences(s) == seq(|s|, i => i)
    ensures DedupSeq(s) == s
  {
    PositionsAll(|s|, (i: nat) => i < |s| && IsFirst(s, i));
    PickAll(s);
  }

  /** Deduplicating twice changes nothing more. */
  lemma DedupSeqIdempotent<T>(s: seq<T>)
    ensures DedupSeq(DedupSeq(s)) == DedupSeq(s)
  {
    DedupSeqDistinct(s);
    DedupSeqOfDistinct(DedupSeq(s));
  }

  /**
   * Drop every row equal to an earlier row. A table without columns is left
   * as it is (the frame counts as empty, so nothing is dropped).
   */
  function RemoveDuplicates(t: Table): (r: Table)
    requires WellFormed(t)
    ensures WellFormed(r) && SameSchema(t, r) && Names(r) == Names(t)
    ensures |t.columns| == 0 ==> r == t
    ensures |t.columns| > 0 ==> Rows(r) == Pick(Rows(t), FirstOccurrences(Rows(t)))
    ensures |t.columns| > 0 ==> Distinct(Rows(r))
    ensures forall i :: 0 <= i < t.height ==> Row(t, i) in Rows(r)
    ensures forall k :: 0 <= k < r.height ==> Rows(r)[k] in Rows(t)
  {
    if |t.columns| == 0 then t
    else
      var r := SelectRows(t, FirstOccurrences(Rows(t)));
      RowsSelectRows(t, FirstOccurrences(Rows(t)));
      DedupSeqDistinct(Rows(t));
      DedupSeqSameValues(Rows(t));
      r
  }

  /** A table whose rows are already distinct is left unchanged. */
  lemma RemoveDuplicatesOfDistinct(t: Table)
    requires WellFormed(t) && Distinct(Rows(t))
    ensures RemoveDuplicates(t) == t
  {
    if |t.columns| > 0 {
      var idx := FirstOccurrences(Rows(t));
      DedupSeqOfDistinct(Rows(t));
      var r := RemoveDuplicates(t);
      forall j, i | 0 <= j < |t.columns| && 0 <= i < t.height
        ensures r.columns[j].cells[i] == t.columns[j].cells[i]
      {
        assert idx[i] == i;
      }
      TableExtensionality(r, t);
    }
  }

  /** Removing duplicates a second time is a no-op. */
  lemma RemoveDuplicatesIdempotent(t: Table)
    requires WellFormed(t)
    ensures RemoveDuplicates(RemoveDuplicates(t)) == RemoveDuplicates(t)
  {
    if |t.columns| > 0 {
      RemoveDuplicatesOfDistinct(RemoveDuplicates(t));
    }
  }

  /** Three values of which only the first two are equal: the first and the third survive. */
  lemma FirstOccurrencesOfThree<T>(s: seq<T>)
    requires |s| == 3 && s[0] == s[1] && s[0] != s[2]
    ensures FirstOccurrences(s) == [0, 2]
  {
    var p := FirstIn(s);
    assert p(0) by { assert IsFirst(s, 0); }
    assert !p(1) by { assert s[0] == s[1]; }
    assert p(2) by { assert IsFirst(s, 2); }
    assert Positions(1, p) == Positions(0, p) + [0] == [0];
    assert Positions(2, p) == Positions(1, p) == [0];
    assert Positions(3, p) == Positions(2, p) + [2] == [0, 2];
    assert FirstOccurrences(s) == Positions(|s|, p);
  }

  /** The worked table, before and after. */
  function ExampleRows(): (r: Table) {
    Table([Column("k", NonNumeric, [Text("a"), Text("a"), Text("b")]),
           Column("v", Numeric, [Num(1.0), Num(1.0), Num(2.0)])], 3)
  }

  function ExampleDeduplicated(): (r: Table) {
    Table([Column("k", NonNumeric, [Text("a"), Text("b")]),
           Column("v", Numeric, [Num(1.0), Num(2.0)])], 2)
  }

  /** The worked table is well formed, and its first two rows are equal and differ from the third. */
  lemma ExampleRowsShape()
    ensures WellFormed(ExampleRows()) && WellFormed(ExampleDeduplicated())
    ensures var rows := Rows(ExampleRows()); |rows| == 3 && rows[0] == rows[1] && rows[0] != rows[2]
  {
    var t := ExampleRows();
    assert Names(t) == ["k", "v"];
    assert Names(ExampleDeduplicated()) == ["k", "v"];
    var rows := Rows(t);
    assert rows[0] == [Text("a"), Num(1.0)] == rows[1];
    assert rows[2] == [Text("b"), Num(2.0)];
  }

  /** Keeping the first and the last row of the worked table gives the deduplicated one. */
  lemma SelectFirstAndLast()
    requires WellFormed(ExampleRows())
    ensures SelectRows(ExampleRows(), [0, 2]) == ExampleDeduplicated()
  {
    var t := ExampleRows();
    var r := SelectRows(t, [0, 2]);
    var k := r.columns[0];
    var v := r.columns[1];
    assert |k.cells| == 2 && k.cells[0] == Text("a") && k.cells[1] == Text("b");
    assert |v.cells| == 2 && v.cells[0] == Num(1.0) && v.cells[1] == Num(2.0);
    assert k == Column("k", NonNumeric, [Text("a"), Text("b")]);
    assert v == Column("v", Numeric, [Num(1.0), Num(2.0)]);
    assert r.columns == [k, v];
  }

  /** Worked case: rows ("a", 1), ("a", 1), ("b", 2) keep the first and the last. */
  lemma RemoveDuplicatesExample()
    ensures WellFormed(ExampleRows())
    ensures RemoveDuplicates(ExampleRows()) == ExampleDeduplicated()
  {
    ExampleRowsShape();
    var t := ExampleRows();
    FirstOccurrencesOfThree(Rows(t));
    assert RemoveDuplicates(t) == SelectRows(t, [0, 2]);
    SelectFirstAndLast();
  }
}
