/** The sorting stage: the cleaned rows ordered by the first numeric column
    (`sort_values(by=numeric_cols[0])`, ascending, missing keys last). */
module Sorting {
  import opened Options
  import opened Frames

  /** The sort key of a row: its integer in column `c`, or `None` when the
      cell is missing (in a well-formed frame the cell always exists, and a
      numeric column holds numbers). */
  function KeyOf(row: Row, c: nat): Option<int>
  {
    if c < |row| then
      match row[c]
      case Some(Num(n)) => Some(n)
      case _ => None
    else None
  }

  /** In a well-formed frame, a row's key in a numeric column is missing
      exactly when its cell is null, and is that cell's number otherwise. */
  lemma KeyOfNumeric(f: Frame, i: nat, c: nat)
    requires f.WellFormed() && i < |f.rows| && c < |f.columns| && f.types[c] == Numeric
    ensures KeyOf(f.rows[i], c).None? <==> f.rows[i][c].None?
    ensures KeyOf(f.rows[i], c).Some? ==> f.rows[i][c] == Some(Num(KeyOf(f.rows[i], c).value))
  {
    assert NumericCells(f.types, f.rows[i]);
  }

  /** Ascending order on keys with missing keys after every present one
      (pandas' `na_position='last'`). */
  predicate KeyLe(a: Option<int>, b: Option<int>)
  {
    match (a, b)
    case (_, None) => true
    case (None, Some(_)) => false
    case (Some(x), Some(y)) => x <= y
  }

  predicate SortedBy(rows: seq<Row>, c: nat)
  {
    forall i, j :: 0 <= i < j < |rows| ==> KeyLe(KeyOf(rows[i], c), KeyOf(rows[j], c))
  }

  lemma KeyLeTotal(a: Option<int>, b: Option<int>)
    ensures KeyLe(a, b) || KeyLe(b, a)
  {
  }

  /** Every key of `s` is at least the key of `h`. */
  predicate Bounds(h: Row, s: seq<Row>, c: nat)
  {
    forall j :: 0 <= j < |s| ==> KeyLe(KeyOf(h, c), KeyOf(s[j], c))
  }

  lemma SortedTail(s: seq<Row>, c: nat)
    requires s != [] && SortedBy(s, c)
    ensures SortedBy(s[1..], c) && Bounds(s[0], s[1..], c)
  {
    forall i, j | 0 <= i < j < |s[1..]|
      ensures KeyLe(KeyOf(s[1..][i], c), KeyOf(s[1..][j], c))
    {
      assert s[1..][i] == s[i + 1] && s[1..][j] == s[j + 1];
    }
    forall j | 0 <= j < |s[1..]| ensures KeyLe(KeyOf(s[0], c), KeyOf(s[1..][j], c)) {
      assert s[1..][j] == s[j + 1];
    }
  }

  lemma SortedCons(h: Row, s: seq<Row>, c: nat)
    requires SortedBy(s, c) && Bounds(h, s, c)
    ensures SortedBy([h] + s, c)
  {
    var r := [h] + s;
    forall i, j | 0 <= i < j < |r| ensures KeyLe(KeyOf(r[i], c), KeyOf(r[j], c)) {
      assert r[j] == s[j - 1];
      if i > 0 {
        assert r[i] == s[i - 1];
      }
    }
  }

  lemma KeyLeTransitive(a: Option<int>, b: Option<int>, d: Option<int>)
    requires KeyLe(a, b) && KeyLe(b, d)
    ensures KeyLe(a, d)
  {
  }

  /** A bound on `x` and on every row of `s` bounds every row of a
      rearrangement of `s` with `x` added. */
  lemma BoundsInsert(h: Row, x: Row, s: seq<Row>, t: seq<Row>, c: nat)
    requires Bounds(h, s, c) && KeyLe(KeyOf(h, c), KeyOf(x, c))
    requires multiset(t) == multiset(s) + multiset{x}
    ensures Bounds(h, t, c)
  {
    forall j | 0 <= j < |t| ensures KeyLe(KeyOf(h, c), KeyOf(t[j], c)) {
      assert t[j] in multiset(t);
      if t[j] != x {
        assert t[j] in multiset(s);
        var k :| 0 <= k < |s| && s[k] == t[j];
      }
    }
  }

  function Insert(x: Row, s: seq<Row>, c: nat): (r: seq<Row>)
    requires SortedBy(s, c)
    ensures multiset(r) == multiset(s) + multiset{x}
    ensures SortedBy(r, c)
    decreases |s|
  {
    if s == [] then [x]
    else if KeyLe(KeyOf(x, c), KeyOf(s[0], c)) then
      SortedTail(s, c);
      assert Bounds(x, s, c) by {
        forall j | 0 <= j < |s| ensures KeyLe(KeyOf(x, c), KeyOf(s[j], c)) {
          if j > 0 {
            assert s[j] == s[1..][j - 1];
            KeyLeTransitive(KeyOf(x, c), KeyOf(s[0], c), KeyOf(s[j], c));
          }
        }
      }
      SortedCons(x, s, c);
      [x] + s
    else
      SortedTail(s, c);
      var t := Insert(x, s[1..], c);
      assert s == [s[0]] + s[1..];
      KeyLeTotal(KeyOf(x, c), KeyOf(s[0], c));
      BoundsInsert(s[0], x, s[1..], t, c);
      SortedCons(s[0], t, c);
      [s[0]] + t
  }

  /** The rows in ascending key order: an insertion sort. pandas' default
      sort is not stable, so only "sorted and a permutation" is promised;
      the order this sort gives to equal keys is one of those pandas may give. */
  function SortRows(rows: seq<Row>, c: nat): (r: seq<Row>)
    ensures multiset(r) == multiset(rows)
    ensures SortedBy(r, c)
    decreases |rows|
  {
    if rows == [] then []
    else
      assert rows == [rows[0]] + rows[1..];
      Insert(rows[0], SortRows(rows[1..], c), c)
  }

  /** What `sort_data_task` produces: no numeric column; a first numeric
      column whose label another column shares, which `sort_values` refuses
      with a `ValueError`; or the position and label of the first numeric
      column and the frame sorted by it. */
  datatype SortResult =
    | NoNumericColumns
    | RepeatedKeyLabel(key: nat, column: string)
    | Sorted(key: nat, column: string, frame: Frame)

  /** No column other than `c` carries the label of column `c`. */
  predicate LabelUnique(columns: seq<string>, c: nat)
    requires c < |columns|
  {
    forall j :: 0 <= j < |columns| && j != c ==> columns[j] != columns[c]
  }

  /** `sort_data_task` on the cleaned frame: the first numeric column is the
      key; `sort_values` refuses a key whose label another column shares, and
      otherwise returns the rows in ascending key order. */
  function SortFrame(f: Frame): (r: SortResult)
    requires f.WellFormed()
    ensures r.NoNumericColumns? <==> Numeric !in f.types
    ensures r.RepeatedKeyLabel? ==>
              && IsFirstNumeric(f.types, r.key)
              && r.column == f.columns[r.key]
              && !LabelUnique(f.columns, r.key)
    ensures r.Sorted? ==>
              && IsFirstNumeric(f.types, r.key)
              && r.column == f.columns[r.key]
              && LabelUnique(f.columns, r.key)
              && r.frame.columns == f.columns && r.frame.types == f.types
              && multiset(r.frame.rows) == multiset(f.rows)
              && SortedBy(r.frame.rows, r.key)
              && r.frame.WellFormed()
  {
    FirstNumericColumn(f.types);
    var idx := NumericIndices(f.types);
    if |idx| == 0 then NoNumericColumns
    else
      var c := idx[0];
      assert IsFirstNumeric(f.types, c);
      var name := f.columns[c];
      if !LabelUnique(f.columns, c) then
        RepeatedKeyLabel(c, name)
      else
        var rows := SortRows(f.rows, c);
        assert forall x :: x in rows ==> x in multiset(f.rows);
        WidthOfMembers(rows, f.rows, |f.columns|, f.types);
        Sorted(c, name, Frame(f.columns, f.types, rows))
  }

  /** Column `c` is numeric and no column before it is. */
  ghost predicate IsFirstNumeric(types: seq<ColType>, c: nat)
  {
    c < |types| && types[c] == Numeric && Numeric !in types[..c]
  }

}
