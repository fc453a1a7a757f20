/** The cleaning stage: rows without duplicates and without nulls
    (`drop_duplicates().dropna()`), and normalised column labels
    (`strip().lower().replace(" ", "_")`). */
module Cleaning {
  import opened Options
  import opened Seqs
  import opened Frames

  // ---------------------------------------------------------------------
  // Rows
  // ---------------------------------------------------------------------

  /** A row with no null cell. */
  predicate Complete<V(==, !new)>(row: seq<Option<V>>)
  {
    None !in row
  }

  /** Scans the rows front to back, keeping a row only when an equal row has
      not been met before (`seen`): `drop_duplicates(keep='first')`. Two nulls
      compare equal here, as they do for pandas' duplicate detection. */
  function DedupFrom<V(==, !new)>(rows: seq<seq<Option<V>>>, seen: set<seq<Option<V>>>): (r: seq<seq<Option<V>>>)
    ensures IsSubseq(r, rows)
    ensures Distinct(r)
    ensures forall x :: x in r <==> x in rows && x !in seen
    decreases |rows|
  {
    if rows == [] then []
    else if rows[0] in seen then DedupFrom(rows[1..], seen)
    else
      var rest := DedupFrom(rows[1..], seen + {rows[0]});
      assert forall x :: x in rows <==> x == rows[0] || x in rows[1..];
      assert forall i :: 0 <= i < |rest| ==> rest[i] != rows[0];
      [rows[0]] + rest
  }

  function DropDuplicates<V(==, !new)>(rows: seq<seq<Option<V>>>): seq<seq<Option<V>>>
  {
    DedupFrom(rows, {})
  }

  /** `dropna()`: the rows that have no null cell, in order. */
  function DropNa<V(==, !new)>(rows: seq<seq<Option<V>>>): (r: seq<seq<Option<V>>>)
    ensures IsSubseq(r, rows)
    ensures forall x :: x in r <==> x in rows && Complete(x)
    decreases |rows|
  {
    if rows == [] then []
    else
      assert forall x :: x in rows <==> x == rows[0] || x in rows[1..];
      if Complete(rows[0]) then [rows[0]] + DropNa(rows[1..]) else DropNa(rows[1..])
  }

  function CleanRows<V(==, !new)>(rows: seq<seq<Option<V>>>): seq<seq<Option<V>>>
  {
    DropNa(DropDuplicates(rows))
  }

  /** Appending a row to the input appends it to the de-duplicated rows
      exactly when no earlier row is equal to it: the first occurrence of
      every row is the one kept. */
  lemma {:induction false} DedupFromSnoc<V(!new)>(rows: seq<seq<Option<V>>>, x: seq<Option<V>>, seen: set<seq<Option<V>>>)
    ensures DedupFrom(rows + [x], seen) == DedupFrom(rows, seen) + (if x in rows || x in seen then [] else [x])
    decreases |rows|
  {
    if rows == [] {
      assert [] + [x] == [x];
    } else {
      assert (rows + [x])[0] == rows[0];
      assert (rows + [x])[1..] == rows[1..] + [x];
      assert x in rows <==> x == rows[0] || x in rows[1..];
      if rows[0] in seen {
        DedupFromSnoc(rows[1..], x, seen);
      } else {
        DedupFromSnoc(rows[1..], x, seen + {rows[0]});
      }
    }
  }

  lemma DropDuplicatesKeepsFirst<V(!new)>(rows: seq<seq<Option<V>>>, x: seq<Option<V>>)
    ensures DropDuplicates(rows + [x]) == DropDuplicates(rows) + (if x in rows then [] else [x])
  {
    DedupFromSnoc(rows, x, {});
  }

  /** The cleaned rows keep the input's relative order, contain no null and
      no two equal rows, and hold exactly the complete rows of the input. */
  lemma CleanRowsSpec<V(!new)>(rows: seq<seq<Option<V>>>)
    ensures IsSubseq(CleanRows(rows), rows)
    ensures Distinct(CleanRows(rows))
    ensures forall x :: x in CleanRows(rows) ==> Complete(x)
    ensures forall x :: x in CleanRows(rows) <==> x in rows && Complete(x)
  {
    var d := DropDuplicates(rows);
    SubseqTransitive(CleanRows(rows), d, rows);
    SubseqDistinct(CleanRows(rows), d);
  }

  lemma {:induction false} DedupDistinct<V(!new)>(rows: seq<seq<Option<V>>>, seen: set<seq<Option<V>>>)
    requires Distinct(rows)
    requires forall x :: x in rows ==> x !in seen
    ensures DedupFrom(rows, seen) == rows
    decreases |rows|
  {
    if rows != [] {
      assert forall i :: 1 <= i < |rows| ==> rows[i] != rows[0];
      assert forall x :: x in rows[1..] ==> x != rows[0];
      assert Distinct(rows[1..]) by {
        forall i, j | 0 <= i < j < |rows[1..]| ensures rows[1..][i] != rows[1..][j] {
          assert rows[1..][i] == rows[i + 1] && rows[1..][j] == rows[j + 1];
        }
      }
      DedupDistinct(rows[1..], seen + {rows[0]});
    }
  }

  lemma {:induction false} DropNaComplete<V(!new)>(rows: seq<seq<Option<V>>>)
    requires forall x :: x in rows ==> Complete(x)
    ensures DropNa(rows) == rows
    decreases |rows|
  {
    if rows != [] {
      DropNaComplete(rows[1..]);
    }
  }

  /** Cleaning already-cleaned rows changes nothing. */
  lemma CleanRowsIdempotent<V(!new)>(rows: seq<seq<Option<V>>>)
    ensures CleanRows(CleanRows(rows)) == CleanRows(rows)
  {
    var c := CleanRows(rows);
    CleanRowsSpec(rows);
    DedupDistinct(c, {});
    DropNaComplete(c);
  }

  // ---------------------------------------------------------------------
  // Column labels
  // ---------------------------------------------------------------------

  /** The ASCII characters Python's `str.strip()` removes: space, tab, line
      feed, vertical tab, form feed, carriage return and the four information
      separators 0x1C..0x1F. */
  predicate IsWhitespace(c: char)
  {
    c == ' ' || 9 <= c as int <= 13 || 28 <= c as int <= 31
  }

  predicate IsUpper(c: char)
  {
    'A' <= c <= 'Z'
  }

  /** `str.lstrip()`. */
  function TrimLeft(s: string): (r: string)
    ensures |r| <= |s|
  {
    if s != [] && IsWhitespace(s[0]) then TrimLeft(s[1..]) else s
  }

  /** `str.rstrip()`. */
  function TrimRight(s: string): (r: string)
    ensures |r| <= |s|
  {
    if s != [] && IsWhitespace(s[|s| - 1]) then TrimRight(s[..|s| - 1]) else s
  }

  /** Left trimming keeps a suffix of the input, everything it removes is
      whitespace, and what is left does not begin with whitespace. */
  lemma {:induction false} TrimLeftSpec(s: string)
    ensures var r := TrimLeft(s);
      && (forall i :: 0 <= i < |r| ==> r[i] == s[|s| - |r| + i])
      && (forall i :: 0 <= i < |s| - |r| ==> IsWhitespace(s[i]))
      && (r == [] || !IsWhitespace(r[0]))
  {
    if s != [] && IsWhitespace(s[0]) {
      TrimLeftSpec(s[1..]);
    }
  }

  /** Right trimming keeps a prefix of the input, everything it removes is
      whitespace, and what is left does not end with whitespace. */
  lemma {:induction false} TrimRightSpec(s: string)
    ensures var r := TrimRight(s);
      && (forall i :: 0 <= i < |r| ==> r[i] == s[i])
      && (forall i :: |r| <= i < |s| ==> IsWhitespace(s[i]))
      && (r == [] || !IsWhitespace(r[|r| - 1]))
  {
    if s != [] && IsWhitespace(s[|s| - 1]) {
      TrimRightSpec(s[..|s| - 1]);
    }
  }

  /** `str.strip()`. */
  function Strip(s: string): string
  {
    TrimRight(TrimLeft(s))
  }

  function ToLower(c: char): char
  {
    if IsUpper(c) then (c as int - 'A' as int + 'a' as int) as char else c
  }

  /** `str.lower()` on ASCII letters. */
  function Lower(s: string): string
  {
    seq(|s|, i requires 0 <= i < |s| => ToLower(s[i]))
  }

  /** `str.replace(" ", "_")`. */
  function SpacesToUnderscores(s: string): string
  {
    seq(|s|, i requires 0 <= i < |s| => if s[i] == ' ' then '_' else s[i])
  }

  function NormalizeHeader(s: string): string
  {
    SpacesToUnderscores(Lower(Strip(s)))
  }

  /** The character a label character becomes. */
  function NormalChar(c: char): char
  {
    if c == ' ' then '_' else ToLower(c)
  }

  /** `r` is `s[k..k + |r|]` with every character normalised, the window
      neither begins nor ends with whitespace, and everything of `s` outside
      it is whitespace. */
  ghost predicate NormalizedAt(s: string, r: string, k: nat)
  {
    && k + |r| <= |s|
    && (forall i :: 0 <= i < k ==> IsWhitespace(s[i]))
    && (forall i :: k + |r| <= i < |s| ==> IsWhitespace(s[i]))
    && (forall i :: 0 <= i < |r| ==> r[i] == NormalChar(s[k + i]))
    && (r == [] || (!IsWhitespace(s[k]) && !IsWhitespace(s[k + |r| - 1])))
  }

  /** Lowering and replacing act character by character. */
  lemma NormalizeHeaderPointwise(s: string)
    ensures |NormalizeHeader(s)| == |Strip(s)|
    ensures forall i :: 0 <= i < |Strip(s)| ==> NormalizeHeader(s)[i] == NormalChar(Strip(s)[i])
  {
    var t := Strip(s);
    forall i | 0 <= i < |t| ensures NormalizeHeader(s)[i] == NormalChar(t[i]) {
      assert Lower(t)[i] == ToLower(t[i]);
    }
  }

  /** Where `Strip(s)` begins in `s`: after the leading whitespace. */
  function StripStart(s: string): nat
  {
    |s| - |TrimLeft(s)|
  }

  /** `Strip(s)` is the window of `s` that begins at `StripStart(s)`. */
  lemma StripContents(s: string)
    ensures StripStart(s) + |Strip(s)| <= |s|
    ensures forall i :: 0 <= i < |Strip(s)| ==> Strip(s)[i] == s[StripStart(s) + i]
  {
    var l := TrimLeft(s);
    var t := TrimRight(l);
    TrimLeftSpec(s);
    TrimRightSpec(l);
  }

  /** Everything of `s` before and after the window is whitespace. */
  lemma StripCut(s: string)
    ensures StripStart(s) + |Strip(s)| <= |s|
    ensures forall i :: 0 <= i < StripStart(s) ==> IsWhitespace(s[i])
    ensures forall i :: StripStart(s) + |Strip(s)| <= i < |s| ==> IsWhitespace(s[i])
  {
    var l := TrimLeft(s);
    var t := TrimRight(l);
    TrimLeftSpec(s);
    TrimRightSpec(l);
    var k := StripStart(s);
    assert k == |s| - |l|;
    forall i | k + |t| <= i < |s| ensures IsWhitespace(s[i]) {
      assert IsWhitespace(l[i - k]);
      assert s[i] == l[i - k];
    }
  }

  /** The window neither begins nor ends with whitespace. */
  lemma StripEdges(s: string)
    ensures Strip(s) == [] || (!IsWhitespace(Strip(s)[0]) && !IsWhitespace(Strip(s)[|Strip(s)| - 1]))
  {
    var l := TrimLeft(s);
    var t := TrimRight(l);
    TrimLeftSpec(s);
    TrimRightSpec(l);
    if t != [] {
      assert t[0] == l[0];
    }
  }

  /** A normalised label is what is left of the input once its surrounding
      whitespace is cut off, with upper-case letters lowered and spaces made
      underscores: it has no space, no upper-case letter and no leading or
      trailing whitespace. */
  lemma NormalizeHeaderSpec(s: string)
    ensures var r := NormalizeHeader(s);
      && NormalizedAt(s, r, StripStart(s))
      && ' ' !in r
      && (forall i :: 0 <= i < |r| ==> !IsUpper(r[i]))
      && (r == [] || (!IsWhitespace(r[0]) && !IsWhitespace(r[|r| - 1])))
  {
    NormalizeHeaderAt(s);
    NormalizeHeaderChars(s);
  }

  /** The normalised label is the input's window between its leading and
      trailing whitespace, each character normalised. */
  lemma NormalizeHeaderAt(s: string)
    ensures NormalizedAt(s, NormalizeHeader(s), StripStart(s))
  {
    NormalizeHeaderPointwise(s);
    StripContents(s);
    StripCut(s);
    StripEdges(s);
  }

  /** `NormalizedAt` at `StripStart` admits exactly one label: the
      normalised one. */
  lemma {:induction false} NormalizedAtUnique(s: string, r: string)
    requires NormalizedAt(s, r, StripStart(s))
    ensures r == NormalizeHeader(s)
  {
    var t := NormalizeHeader(s);
    var k := StripStart(s);
    NormalizeHeaderAt(s);
    assert r != [] ==> !IsWhitespace(s[k + |r| - 1]);
    assert t != [] ==> !IsWhitespace(s[k + |t| - 1]);
    assert |r| == |t|;
    forall i | 0 <= i < |r| ensures r[i] == t[i] {
      assert r[i] == NormalChar(s[k + i]);
    }
  }

  /** A normalised character is no space and no upper-case letter, and it is
      whitespace only when the original was. */
  lemma NormalCharFacts(c: char)
    ensures NormalChar(c) != ' ' && !IsUpper(NormalChar(c))
    ensures IsWhitespace(NormalChar(c)) ==> IsWhitespace(c)
  {
  }

  /** Characters normalised one by one from a string without edge whitespace. */
  lemma NormalCharsFacts(t: string, r: string)
    requires |r| == |t| && forall i :: 0 <= i < |t| ==> r[i] == NormalChar(t[i])
    requires t == [] || (!IsWhitespace(t[0]) && !IsWhitespace(t[|t| - 1]))
    ensures ' ' !in r && forall i :: 0 <= i < |r| ==> !IsUpper(r[i])
    ensures r == [] || (!IsWhitespace(r[0]) && !IsWhitespace(r[|r| - 1]))
  {
    forall i | 0 <= i < |r| ensures r[i] != ' ' && !IsUpper(r[i]) {
      NormalCharFacts(t[i]);
    }
    if r != [] {
      NormalCharFacts(t[0]);
      NormalCharFacts(t[|t| - 1]);
    }
  }

  lemma NormalizeHeaderChars(s: string)
    ensures var r := NormalizeHeader(s);
      && ' ' !in r
      && (forall i :: 0 <= i < |r| ==> !IsUpper(r[i]))
      && (r == [] || (!IsWhitespace(r[0]) && !IsWhitespace(r[|r| - 1])))
  {
    NormalizeHeaderPointwise(s);
    StripEdges(s);
    NormalCharsFacts(Strip(s), NormalizeHeader(s));
  }

  lemma TrimFixed(r: string)
    requires r == [] || (!IsWhitespace(r[0]) && !IsWhitespace(r[|r| - 1]))
    ensures Strip(r) == r
  {
    TrimLeftSpec(r);
    TrimRightSpec(r);
    assert TrimLeft(r) == r;
    assert TrimRight(r) == r;
  }

  lemma LowerFixed(r: string)
    requires forall i :: 0 <= i < |r| ==> !IsUpper(r[i])
    ensures Lower(r) == r
  {
    assert forall i :: 0 <= i < |r| ==> Lower(r)[i] == r[i];
  }

  lemma SpacesFixed(r: string)
    requires ' ' !in r
    ensures SpacesToUnderscores(r) == r
  {
    assert forall i :: 0 <= i < |r| ==> SpacesToUnderscores(r)[i] == r[i];
  }

  /** `"Price"` and `" price"` are different labels that normalise to the
      same one. */
  lemma LabelsCollide()
    ensures NormalizeHeader("Price") == NormalizeHeader(" price") == "price"
  {
    TrimFixed("Price");
    TrimFixed("price");
    assert TrimLeft(" price") == TrimLeft("price");
    var lower := Lower("Price");
    assert |lower| == 5 && lower[0] == 'p';
    assert lower == "price";
    SpacesFixed("price");
    LowerFixed("price");
  }

  /** Normalising a normalised label changes nothing. */
  lemma NormalizeHeaderIdempotent(s: string)
    ensures NormalizeHeader(NormalizeHeader(s)) == NormalizeHeader(s)
  {
    var r := NormalizeHeader(s);
    NormalizeHeaderSpec(s);
    TrimFixed(r);
    LowerFixed(r);
    SpacesFixed(r);
  }

  // ---------------------------------------------------------------------
  // The cleaned frame
  // ---------------------------------------------------------------------

  /** Every label normalised, in order. */
  function NormalizeHeaders(columns: seq<string>): (r: seq<string>)
    ensures |r| == |columns|
  {
    seq(|columns|, i requires 0 <= i < |columns| => NormalizeHeader(columns[i]))
  }

  /** The frame `clean_data_task` stores: cleaned rows and normalised labels;
      the column types are untouched. */
  function CleanFrame(f: Frame): (r: Frame)
    ensures f.WellFormed() ==> r.WellFormed()
    ensures r.types == f.types && |r.columns| == |f.columns|
  {
    var rows := CleanRows(f.rows);
    CleanRowsSpec(f.rows);
    assert f.WellFormed() ==> Frame(NormalizeHeaders(f.columns), f.types, rows).WellFormed() by {
      if f.WellFormed() {
        WidthOfMembers(rows, f.rows, |f.columns|, f.types);
      }
    }
    Frame(NormalizeHeaders(f.columns), f.types, rows)
  }

}
