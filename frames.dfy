/** The tabular data carried between the pipeline stages: named columns with
    a declared type, and rows of optional cells (a missing cell is a null). */
module Frames {
  import opened Options

  /** A cell value. Numeric columns hold integers; text and temporal columns
      hold their text. */
  datatype Value = Num(n: int) | Text(s: string)

  /** The declared type of a column; only `Numeric` columns take part in
      sorting and correlation. */
  datatype ColType = Numeric | Textual | Temporal

  type Row = seq<Option<Value>>

  datatype Frame = Frame(columns: seq<string>, types: seq<ColType>, rows: seq<Row>)
  {
    /** Every column has a type, every row has one cell per column, and every
        present cell of a numeric column holds a number. */
    predicate WellFormed()
    {
      && |types| == |columns|
      && (forall i :: 0 <= i < |rows| ==> |rows[i]| == |columns|)
      && (forall i :: 0 <= i < |rows| ==> NumericCells(types, rows[i]))
    }
  }

  /** Every present cell of a numeric column holds a number. */
  predicate NumericCells(types: seq<ColType>, row: Row)
  {
    forall k :: 0 <= k < |row| && k < |types| && types[k] == Numeric && row[k].Some? ==> row[k].value.Num?
  }

  /** Rows drawn from rows of width `n` whose numeric cells hold numbers have
      width `n`, and their numeric cells hold numbers too. */
  lemma WidthOfMembers(rows: seq<Row>, from: seq<Row>, n: nat, types: seq<ColType>)
    requires forall i :: 0 <= i < |from| ==> |from[i]| == n && NumericCells(types, from[i])
    requires forall r :: r in rows ==> r in from
    ensures forall i :: 0 <= i < |rows| ==> |rows[i]| == n && NumericCells(types, rows[i])
  {
    forall i | 0 <= i < |rows| ensures |rows[i]| == n && NumericCells(types, rows[i]) {
      assert rows[i] in from;
      var j :| 0 <= j < |from| && from[j] == rows[i];
    }
  }

  /** The positions of the numeric columns from position `k` on, in column
      order: the columns `select_dtypes(include='number')` keeps. */
  function NumericFrom(types: seq<ColType>, k: nat): (r: seq<nat>)
    ensures forall i :: i in r <==> k <= i < |types| && types[i] == Numeric
    ensures forall a, b :: 0 <= a < b < |r| ==> r[a] < r[b]
    ensures forall a :: 0 <= a < |r| ==> k <= r[a]
    decreases |types| - k
  {
    if k >= |types| then []
    else if types[k] == Numeric then [k] + NumericFrom(types, k + 1)
    else NumericFrom(types, k + 1)
  }

  function NumericIndices(types: seq<ColType>): seq<nat>
  {
    NumericFrom(types, 0)
  }

  /** The first numeric column is the first position whose type is numeric;
      there is none exactly when no column is numeric. */
  lemma FirstNumericColumn(types: seq<ColType>)
    ensures |NumericIndices(types)| == 0 <==> Numeric !in types
    ensures |NumericIndices(types)| > 0 ==>
              var c := NumericIndices(types)[0];
              c < |types| && types[c] == Numeric && Numeric !in types[..c]
  {
    var idx := NumericIndices(types);
    if Numeric in types {
      var i :| 0 <= i < |types| && types[i] == Numeric;
      assert i in idx;
    }
    if |idx| > 0 {
      var c := idx[0];
      assert c in idx;
      forall i | 0 <= i < c ensures types[i] != Numeric {
        assert forall a :: 0 <= a < |idx| ==> c <= idx[a];
        assert i !in idx;
      }
      assert forall x :: x in types[..c] ==> x != Numeric;
    }
  }

}
