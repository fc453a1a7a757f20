/** The analysis stage of `run_eda_task`: the correlation matrix is flattened
    into (column, row) entries with the diagonal masked, undefined (NaN)
    entries dropped and values made absolute; the entries, ranked by
    decreasing absolute value, are walked in order and at most three pairs
    are selected, skipping self-pairs and pairs whose mirror was already
    selected. Every selected pair gets a scatter-plot path after the heatmap
    path. */
module PairSelection {
  import opened Options
  import opened Seqs

  /** The selection bound: the loop stops after this many pairs. */
  const TopK: nat := 3

  const HeatmapPath: string := "eda_plots/heatmap.png"

  /** A correlation matrix: square, labelled by the numeric columns;
      `cells[i][j]` is the value at row `i`, column `j`, `None` for NaN. */
  datatype CorrMatrix = CorrMatrix(names: seq<string>, cells: seq<seq<Option<real>>>)
  {
    predicate Valid()
    {
      |cells| == |names| && forall i :: 0 <= i < |cells| ==> |cells[i]| == |names|
    }
  }

  /** An ordered pair of labels `(feat1, feat2)`. */
  datatype Pair = Pair(first: string, second: string)
  {
    function Mirror(): Pair
    {
      Pair(second, first)
    }

    predicate IsSelf()
    {
      first == second
    }
  }

  /** One entry of the flattened series: its (column, row) key and value. */
  datatype Entry<V> = Entry(pair: Pair, value: V)

  function Abs(x: real): real
  {
    if x < 0.0 then -x else x
  }

  // ---------------------------------------------------------------------
  // Flattening the matrix
  // ---------------------------------------------------------------------

  /** `corr.where(~np.eye(n, dtype=bool))`: the diagonal positions become NaN. */
  function Masked(m: CorrMatrix): (r: CorrMatrix)
    requires m.Valid()
    ensures r.Valid() && r.names == m.names
  {
    var n := |m.names|;
    CorrMatrix(m.names, seq(n, i requires 0 <= i < n =>
      seq(n, j requires 0 <= j < n => if i == j then None else m.cells[i][j])))
  }

  /** The entries of column `j`, top to bottom, keyed (column label, row label). */
  function Column(m: CorrMatrix, j: nat): seq<Entry<Option<real>>>
    requires m.Valid() && j < |m.names|
  {
    seq(|m.names|, i requires 0 <= i < |m.names| => Entry(Pair(m.names[j], m.names[i]), m.cells[i][j]))
  }

  /** `unstack()`: the columns from `j` on, one after another. */
  function UnstackFrom(m: CorrMatrix, j: nat): seq<Entry<Option<real>>>
    requires m.Valid()
    decreases |m.names| - j
  {
    if j >= |m.names| then [] else Column(m, j) + UnstackFrom(m, j + 1)
  }

  function Unstack(m: CorrMatrix): seq<Entry<Option<real>>>
    requires m.Valid()
  {
    UnstackFrom(m, 0)
  }

  /** `dropna()`: the defined entries, in order. */
  function DropUndefined(s: seq<Entry<Option<real>>>): (r: seq<Entry<real>>)
    ensures forall e :: e in r <==> Entry(e.pair, Some(e.value)) in s
    decreases |s|
  {
    if s == [] then []
    else
      assert forall x :: x in s <==> x == s[0] || x in s[1..];
      match s[0].value
      case None => DropUndefined(s[1..])
      case Some(v) => [Entry(s[0].pair, v)] + DropUndefined(s[1..])
  }

  /** `abs()`. */
  function Absolute(s: seq<Entry<real>>): (r: seq<Entry<real>>)
    ensures |r| == |s|
  {
    seq(|s|, k requires 0 <= k < |s| => Entry(s[k].pair, Abs(s[k].value)))
  }

  /** The series that is sorted and walked: flattened, masked, defined and
      absolute. */
  function Candidates(m: CorrMatrix): seq<Entry<real>>
    requires m.Valid()
  {
    Absolute(DropUndefined(Unstack(Masked(m))))
  }

  predicate NonIncreasing(s: seq<Entry<real>>)
  {
    forall a, b :: 0 <= a < b < |s| ==> s[a].value >= s[b].value
  }

  /** `sort_values(ascending=False)`: any arrangement of the candidates whose
      values do not increase; the order of ties is left open. */
  predicate IsRanking(series: seq<Entry<real>>, m: CorrMatrix)
    requires m.Valid()
  {
    multiset(series) == multiset(Candidates(m)) && NonIncreasing(series)
  }

  // ---------------------------------------------------------------------
  // The selection
  // ---------------------------------------------------------------------

  ghost function PairsOf<V>(s: seq<Entry<V>>): set<Pair>
  {
    set k | 0 <= k < |s| :: s[k].pair
  }

  predicate PairsDistinct<V>(s: seq<Entry<V>>)
  {
    forall a, b :: 0 <= a < b < |s| ==> s[a].pair != s[b].pair
  }

  /** No entry's pair is the mirror of another's or of its own: no self-pair
      and never both orientations of a pair. */
  predicate NoMirrored<V>(s: seq<Entry<V>>)
  {
    forall a, b :: 0 <= a < |s| && 0 <= b < |s| ==> s[a].pair != s[b].pair.Mirror()
  }

  lemma PairsOfSnoc<V>(s: seq<Entry<V>>, e: Entry<V>)
    ensures PairsOf(s + [e]) == PairsOf(s) + {e.pair}
  {
    var t := s + [e];
    assert forall k :: 0 <= k < |s| ==> t[k] == s[k];
    assert t[|s|] == e;
  }

  /** The loop's test for skipping an entry once `chosen` has been selected:
      its mirror was chosen or it pairs a label with itself. */
  ghost predicate Skipped(e: Entry<real>, chosen: seq<Entry<real>>)
  {
    e.pair.Mirror() in PairsOf(chosen) || e.pair.first == e.pair.second
  }

  /** What the loop selects from the rest of the series once `chosen` has
      been selected: it stops when `TopK` pairs are chosen or the series is
      exhausted, and skips an entry whose mirror was chosen or that pairs a
      label with itself. */
  ghost function Pick(series: seq<Entry<real>>, chosen: seq<Entry<real>>): seq<Entry<real>>
    decreases |series|
  {
    if |chosen| >= TopK || series == [] then []
    else
      var e := series[0];
      if Skipped(e, chosen) then
        Pick(series[1..], chosen)
      else
        [e] + Pick(series[1..], chosen + [e])
  }

  /** Choosing an entry that is no self-pair and whose mirror is not chosen
      keeps the chosen entries free of mirrored pairs. */
  lemma NoMirroredSnoc(chosen: seq<Entry<real>>, e: Entry<real>)
    requires NoMirrored(chosen) && !Skipped(e, chosen)
    ensures NoMirrored(chosen + [e])
  {
    var c := chosen + [e];
    forall a, b | 0 <= a < |c| && 0 <= b < |c| ensures c[a].pair != c[b].pair.Mirror() {
      if a < |chosen| && b == |chosen| {
        assert c[a].pair in PairsOf(chosen);
      } else if a == |chosen| && b < |chosen| {
        assert c[b].pair in PairsOf(chosen);
      } else if a < |chosen| && b < |chosen| {
        assert c[a] == chosen[a] && c[b] == chosen[b];
      }
    }
  }

  /** What is picked comes from the series in its order, keeps the total at
      most `TopK`, and adds no self-pair and no mirror of a chosen pair. */
  lemma {:induction false} PickSpec(series: seq<Entry<real>>, chosen: seq<Entry<real>>)
    ensures IsSubseq(Pick(series, chosen), series)
    ensures |chosen| <= TopK ==> |chosen| + |Pick(series, chosen)| <= TopK
    ensures NoMirrored(chosen) ==> NoMirrored(chosen + Pick(series, chosen))
    decreases |series|
  {
    if |chosen| >= TopK || series == [] {
      assert chosen + [] == chosen;
    } else {
      var e := series[0];
      if Skipped(e, chosen) {
        PickSpec(series[1..], chosen);
      } else {
        var c := chosen + [e];
        PickSpec(series[1..], c);
        if NoMirrored(chosen) {
          NoMirroredSnoc(chosen, e);
        }
        var rest := Pick(series[1..], c);
        assert chosen + ([e] + rest) == c + rest;
      }
    }
  }

  /** A skipped entry at `i` selects nothing. */
  lemma SelectionSkip(series: seq<Entry<real>>, i: nat, chosen: seq<Entry<real>>)
    requires i < |series| && |chosen| < TopK && Skipped(series[i], chosen)
    ensures Pick(series[i..], chosen) == Pick(series[i + 1..], chosen)
  {
    assert series[i..][0] == series[i] && series[i..][1..] == series[i + 1..];
  }

  /** A taken entry at `i` is selected before the rest of the walk. */
  lemma SelectionTake(series: seq<Entry<real>>, i: nat, chosen: seq<Entry<real>>)
    requires i < |series| && |chosen| < TopK && !Skipped(series[i], chosen)
    ensures Pick(series[i..], chosen) == [series[i]] + Pick(series[i + 1..], chosen + [series[i]])
  {
    assert series[i..][0] == series[i] && series[i..][1..] == series[i + 1..];
  }

  /** The walk is over when the series is. */
  lemma SelectionEnd(series: seq<Entry<real>>, chosen: seq<Entry<real>>)
    ensures chosen + Pick(series[|series|..], chosen) == chosen
  {
    assert series[|series|..] == [];
  }

  ghost function Selected(series: seq<Entry<real>>): seq<Entry<real>>
  {
    Pick(series, [])
  }

  /** The selected pairs are taken from the series in its order, number at
      most `TopK`, contain no self-pair and never both orientations of a pair,
      and follow the series' non-increasing order of absolute value. */
  lemma SelectedSpec(series: seq<Entry<real>>)
    ensures IsSubseq(Selected(series), series)
    ensures |Selected(series)| <= TopK
    ensures NoMirrored(Selected(series))
    ensures forall k :: 0 <= k < |Selected(series)| ==> !Selected(series)[k].pair.IsSelf()
    ensures NonIncreasing(series) ==> NonIncreasing(Selected(series))
  {
    var r := Selected(series);
    PickSpec(series, []);
    assert [] + r == r;
    if NonIncreasing(series) {
      SubseqNonIncreasing(r, series);
    }
    forall k | 0 <= k < |r| ensures !r[k].pair.IsSelf() {
      assert r[k].pair != r[k].pair.Mirror();
    }
  }

  lemma {:induction false} SubseqNonIncreasing(a: seq<Entry<real>>, b: seq<Entry<real>>)
    requires IsSubseq(a, b) && NonIncreasing(b)
    ensures NonIncreasing(a)
    decreases |b|
  {
    if a != [] {
      assert NonIncreasing(b[1..]) by {
        forall x, y | 0 <= x < y < |b[1..]| ensures b[1..][x].value >= b[1..][y].value {
          assert b[1..][x] == b[x + 1] && b[1..][y] == b[y + 1];
        }
      }
      if a[0] == b[0] && IsSubseq(a[1..], b[1..]) {
        SubseqNonIncreasing(a[1..], b[1..]);
        SubseqMembers(a[1..], b[1..]);
        forall x, y | 0 <= x < y < |a| ensures a[x].value >= a[y].value {
          assert a[y] == a[1..][y - 1];
          if x == 0 {
            assert a[y] in b[1..];
            var k :| 0 <= k < |b[1..]| && b[1..][k] == a[y];
            assert b[k + 1] == a[y];
          } else {
            assert a[x] == a[1..][x - 1];
          }
        }
      } else {
        SubseqNonIncreasing(a, b[1..]);
      }
    }
  }

  // ---------------------------------------------------------------------
  // A reference description of the selection
  // ---------------------------------------------------------------------

  /** The entries of the series that are not self-pairs and whose mirror
      occurs neither in `seen` nor earlier in the series: of every unordered
      pair, the orientation met first. */
  ghost function FirstOrientations(series: seq<Entry<real>>, seen: set<Pair>): (r: seq<Entry<real>>)
    ensures forall x :: x in r ==> x in series
    decreases |series|
  {
    if series == [] then []
    else
      var e := series[0];
      assert forall x :: x in series[1..] ==> x in series;
      (if !e.pair.IsSelf() && e.pair.Mirror() !in seen then [e] else [])
        + FirstOrientations(series[1..], seen + {e.pair})
  }

  function Min(a: int, b: int): int
  {
    if a <= b then a else b
  }

  /** The first `k` elements (all of them when there are fewer). */
  function Take<T>(s: seq<T>, k: int): seq<T>
  {
    if k >= |s| then s else if k <= 0 then [] else s[..k]
  }

  lemma PairsDistinctTail<V>(s: seq<Entry<V>>)
    requires PairsDistinct(s) && s != []
    ensures PairsDistinct(s[1..])
    ensures forall k :: 0 <= k < |s[1..]| ==> s[1..][k].pair != s[0].pair
  {
    forall a, b | 0 <= a < b < |s[1..]| ensures s[1..][a].pair != s[1..][b].pair {
      assert s[1..][a] == s[a + 1] && s[1..][b] == s[b + 1];
    }
    forall k | 0 <= k < |s[1..]| ensures s[1..][k].pair != s[0].pair {
      assert s[1..][k] == s[k + 1];
    }
  }

  /** The loop's view of the chosen pairs agrees with `seen` on the mirrors
      of the remaining entries. */
  ghost predicate SeenAgrees(series: seq<Entry<real>>, chosen: seq<Entry<real>>, seen: set<Pair>)
  {
    forall k :: 0 <= k < |series| && !series[k].pair.IsSelf() ==>
      (series[k].pair.Mirror() in seen <==> series[k].pair.Mirror() in PairsOf(chosen))
  }

  /** Walking past an entry that is not selected keeps the agreement. */
  lemma SeenAgreesSkip(series: seq<Entry<real>>, chosen: seq<Entry<real>>, seen: set<Pair>)
    requires series != [] && PairsDistinct(series) && SeenAgrees(series, chosen, seen)
    requires forall k :: 0 <= k < |series| ==> series[k].pair !in seen
    requires series[0].pair.IsSelf() || series[0].pair.Mirror() in seen
    ensures SeenAgrees(series[1..], chosen, seen + {series[0].pair})
  {
    var e := series[0];
    var rest := series[1..];
    PairsDistinctTail(series);
    forall k | 0 <= k < |rest| && !rest[k].pair.IsSelf()
      ensures rest[k].pair.Mirror() in seen + {e.pair} <==> rest[k].pair.Mirror() in PairsOf(chosen)
    {
      assert rest[k] == series[k + 1];
      if !e.pair.IsSelf() {
        assert rest[k].pair != e.pair.Mirror();
      }
      assert rest[k].pair.Mirror() != e.pair;
    }
  }

  /** Walking past a selected entry keeps the agreement. */
  lemma SeenAgreesTake(series: seq<Entry<real>>, chosen: seq<Entry<real>>, seen: set<Pair>)
    requires series != [] && SeenAgrees(series, chosen, seen)
    ensures SeenAgrees(series[1..], chosen + [series[0]], seen + {series[0].pair})
  {
    var rest := series[1..];
    PairsOfSnoc(chosen, series[0]);
    forall k | 0 <= k < |rest| && !rest[k].pair.IsSelf()
      ensures rest[k].pair.Mirror() in seen + {series[0].pair}
          <==> rest[k].pair.Mirror() in PairsOf(chosen + [series[0]])
    {
      assert rest[k] == series[k + 1];
    }
  }

  lemma TakeCons<T>(e: T, f: seq<T>, k: int)
    requires k > 0
    ensures Take([e] + f, k) == [e] + Take(f, k - 1)
  {
  }

  /** When no ordered pair occurs twice in the series, the loop selects the
      first `TopK` first-met orientations. The hypotheses on `chosen` and
      `seen` are what holds when `seen` holds the keys of the entries already
      walked and `chosen` the entries selected from them. */
  lemma {:induction false} PickIsFirstOrientations(series: seq<Entry<real>>, chosen: seq<Entry<real>>, seen: set<Pair>)
    requires PairsDistinct(series)
    requires forall k :: 0 <= k < |series| ==> series[k].pair !in seen
    requires PairsOf(chosen) <= seen
    requires |chosen| <= TopK
    requires SeenAgrees(series, chosen, seen)
    ensures Pick(series, chosen) == Take(FirstOrientations(series, seen), TopK - |chosen|)
    decreases |series|
  {
    if series == [] || |chosen| >= TopK {
    } else {
      var e := series[0];
      var rest := series[1..];
      PairsDistinctTail(series);
      var seen' := seen + {e.pair};
      assert forall k :: 0 <= k < |rest| ==> rest[k] == series[k + 1];
      if e.pair.IsSelf() || e.pair.Mirror() in seen {
        SeenAgreesSkip(series, chosen, seen);
        PickIsFirstOrientations(rest, chosen, seen');
      } else {
        var c := chosen + [e];
        PairsOfSnoc(chosen, e);
        SeenAgreesTake(series, chosen, seen);
        PickIsFirstOrientations(rest, c, seen');
        TakeCons(e, FirstOrientations(rest, seen'), TopK - |chosen|);
      }
    }
  }

  function Unordered(p: Pair): set<string>
  {
    {p.first, p.second}
  }

  /** The unordered pairs of distinct labels among `ps`. */
  ghost function UnorderedPairs(ps: set<Pair>): set<set<string>>
  {
    set p | p in ps && !p.IsSelf() :: Unordered(p)
  }

  lemma UnorderedSame(p: Pair, q: Pair)
    requires !p.IsSelf() && Unordered(p) == Unordered(q)
    ensures q == p || q == p.Mirror()
  {
    assert q.first in Unordered(p) && q.second in Unordered(p);
    assert p.first in Unordered(q) && p.second in Unordered(q);
  }

  lemma UnorderedPairsAdd(ps: set<Pair>, p: Pair)
    ensures UnorderedPairs(ps + {p}) == UnorderedPairs(ps) + (if p.IsSelf() then {} else {Unordered(p)})
  {
  }

  lemma PairsOfCons<V>(s: seq<Entry<V>>)
    requires s != []
    ensures PairsOf(s) == {s[0].pair} + PairsOf(s[1..])
  {
    forall x | x in PairsOf(s) ensures x in {s[0].pair} + PairsOf(s[1..]) {
      var k :| 0 <= k < |s| && s[k].pair == x;
      if k > 0 { assert s[1..][k - 1] == s[k]; }
    }
    forall x | x in PairsOf(s[1..]) ensures x in PairsOf(s) {
      var k :| 0 <= k < |s[1..]| && s[1..][k].pair == x;
      assert s[k + 1] == s[1..][k];
    }
  }

  /** A pair of distinct labels whose key and mirror are both outside `seen`
      adds a new unordered pair. */
  lemma UnorderedNew(seen: set<Pair>, p: Pair)
    requires !p.IsSelf() && p !in seen && p.Mirror() !in seen
    ensures Unordered(p) !in UnorderedPairs(seen)
  {
    forall q | q in seen && !q.IsSelf() ensures Unordered(q) != Unordered(p) {
      if Unordered(q) == Unordered(p) {
        UnorderedSame(p, q);
      }
    }
  }

  /** The unordered pairs of `{p} + rest` not covered by `seen`, and those of
      `rest` not covered by `seen + {p}`. */
  ghost function UncoveredBefore(rest: set<Pair>, seen: set<Pair>, p: Pair): set<set<string>>
  {
    UnorderedPairs({p} + rest) - UnorderedPairs(seen)
  }

  ghost function UncoveredAfter(rest: set<Pair>, seen: set<Pair>, p: Pair): set<set<string>>
  {
    UnorderedPairs(rest) - UnorderedPairs(seen + {p})
  }

  /** A self-pair or a pair whose mirror is covered adds nothing. */
  lemma UncoveredUnchanged(rest: set<Pair>, seen: set<Pair>, p: Pair)
    requires p.IsSelf() || p.Mirror() in seen
    ensures UncoveredBefore(rest, seen, p) == UncoveredAfter(rest, seen, p)
  {
    UnorderedPairsAdd(rest, p);
    UnorderedPairsAdd(seen, p);
    assert {p} + rest == rest + {p};
    if !p.IsSelf() {
      assert Unordered(p) == Unordered(p.Mirror());
      assert Unordered(p) in UnorderedPairs(seen);
    }
  }

  /** A pair of distinct labels neither of whose orientations is covered adds
      its unordered pair. */
  lemma UncoveredAdded(rest: set<Pair>, seen: set<Pair>, p: Pair)
    requires p !in seen && !p.IsSelf() && p.Mirror() !in seen
    ensures UncoveredBefore(rest, seen, p) == UncoveredAfter(rest, seen, p) + {Unordered(p)}
    ensures Unordered(p) !in UncoveredAfter(rest, seen, p)
  {
    UnorderedPairsAdd(rest, p);
    UnorderedPairsAdd(seen, p);
    assert {p} + rest == rest + {p};
    UnorderedNew(seen, p);
  }

  /** The step of the count: how the number of uncovered unordered pairs
      changes when the first entry is walked. */
  lemma UncoveredStep(rest: set<Pair>, seen: set<Pair>, p: Pair)
    requires p !in seen
    ensures |UncoveredBefore(rest, seen, p)|
         == |UncoveredAfter(rest, seen, p)| + (if !p.IsSelf() && p.Mirror() !in seen then 1 else 0)
  {
    if p.IsSelf() || p.Mirror() in seen {
      UncoveredUnchanged(rest, seen, p);
    } else {
      UncoveredAdded(rest, seen, p);
    }
  }

  /** When no ordered pair occurs twice, the first-met orientations are as
      many as the unordered pairs of distinct labels not already covered by
      `seen`. */
  lemma {:induction false} FirstOrientationsCount(series: seq<Entry<real>>, seen: set<Pair>)
    requires PairsDistinct(series)
    requires forall k :: 0 <= k < |series| ==> series[k].pair !in seen
    ensures |FirstOrientations(series, seen)| == |UnorderedPairs(PairsOf(series)) - UnorderedPairs(seen)|
    decreases |series|
  {
    if series == [] {
      assert PairsOf(series) == {};
      assert UnorderedPairs(PairsOf(series)) == {};
    } else {
      var e := series[0];
      var rest := series[1..];
      PairsDistinctTail(series);
      assert forall k :: 0 <= k < |rest| ==> rest[k] == series[k + 1];
      FirstOrientationsCount(rest, seen + {e.pair});
      PairsOfCons(series);
      UncoveredStep(PairsOf(rest), seen, e.pair);
    }
  }

  /** When no ordered pair occurs twice in the series, exactly
      min(TopK, number of unordered pairs of distinct labels) pairs are
      selected. */
  lemma SelectedCount(series: seq<Entry<real>>)
    requires PairsDistinct(series)
    ensures |Selected(series)| == Min(TopK, |UnorderedPairs(PairsOf(series))|)
  {
    PickIsFirstOrientations(series, [], {});
    FirstOrientationsCount(series, {});
    assert UnorderedPairs({}) == {};
    assert PairsOf<real>([]) == {};
  }

  lemma {:induction false} FirstOrientationsExclude(series: seq<Entry<real>>, seen: set<Pair>, b: nat)
    requires PairsDistinct(series)
    requires b < |series|
    requires series[b].pair.Mirror() in seen + PairsOf(series[..b])
    ensures series[b] !in FirstOrientations(series, seen)
    decreases |series|
  {
    var e := series[0];
    var rest := series[1..];
    PairsDistinctTail(series);
    if b == 0 {
      assert PairsOf(series[..0]) == {};
      assert series[0] !in rest by {
        forall k | 0 <= k < |rest| ensures rest[k] != series[0] {
          assert rest[k].pair != e.pair;
        }
      }
    } else {
      assert series[b] == rest[b - 1];
      assert series[b].pair != e.pair;
      assert PairsOf(series[..b]) == {e.pair} + PairsOf(rest[..b - 1]) by {
        forall x | x in PairsOf(series[..b]) ensures x in {e.pair} + PairsOf(rest[..b - 1]) {
          var k :| 0 <= k < b && series[..b][k].pair == x;
          if k > 0 { assert rest[..b - 1][k - 1] == series[..b][k]; }
        }
        forall x | x in PairsOf(rest[..b - 1]) ensures x in PairsOf(series[..b]) {
          var k :| 0 <= k < b - 1 && rest[..b - 1][k].pair == x;
          assert series[..b][k + 1] == rest[..b - 1][k];
        }
        assert series[..b][0] == e;
      }
      FirstOrientationsExclude(rest, seen + {e.pair}, b - 1);
    }
  }

  /** Of two mirrored entries, the one met later is never selected: the
      first-met orientation wins (when no ordered pair occurs twice). */
  lemma FirstOrientationWins(series: seq<Entry<real>>, a: nat, b: nat)
    requires PairsDistinct(series)
    requires a < b < |series|
    requires series[b].pair == series[a].pair.Mirror()
    ensures series[b] !in Selected(series)
  {
    PickIsFirstOrientations(series, [], {});
    assert PairsOf<real>([]) == {};
    assert series[..b][a] == series[a];
    assert series[b].pair.Mirror() in PairsOf(series[..b]);
    FirstOrientationsExclude(series, {}, b);
  }

  // ---------------------------------------------------------------------
  // From the matrix to the series
  // ---------------------------------------------------------------------

  lemma {:induction false} UnstackFromHas(m: CorrMatrix, j: nat, c: nat, i: nat)
    requires m.Valid() && j <= c < |m.names| && i < |m.names|
    ensures Entry(Pair(m.names[c], m.names[i]), m.cells[i][c]) in UnstackFrom(m, j)
    decreases |m.names| - j
  {
    if c == j {
      assert Column(m, j)[i] == Entry(Pair(m.names[c], m.names[i]), m.cells[i][c]);
    } else {
      UnstackFromHas(m, j + 1, c, i);
    }
  }

  lemma {:induction false} UnstackFromOrigin(m: CorrMatrix, j: nat, x: Entry<Option<real>>) returns (c: nat, i: nat)
    requires m.Valid() && x in UnstackFrom(m, j)
    ensures j <= c < |m.names| && i < |m.names|
    ensures x == Entry(Pair(m.names[c], m.names[i]), m.cells[i][c])
    decreases |m.names| - j
  {
    if x in Column(m, j) {
      var k :| 0 <= k < |Column(m, j)| && Column(m, j)[k] == x;
      c, i := j, k;
    } else {
      c, i := UnstackFromOrigin(m, j + 1, x);
    }
  }

  /** Every candidate comes from an off-diagonal position whose value is
      defined: its key is (column label, row label) and its value the
      absolute value there. */
  lemma CandidateOrigin(m: CorrMatrix, e: Entry<real>) returns (i: nat, j: nat)
    requires m.Valid() && e in Candidates(m)
    ensures i < |m.names| && j < |m.names| && i != j && m.cells[i][j].Some?
    ensures e == Entry(Pair(m.names[j], m.names[i]), Abs(m.cells[i][j].value))
  {
    var mm := Masked(m);
    var d := DropUndefined(Unstack(mm));
    var k :| 0 <= k < |Candidates(m)| && Candidates(m)[k] == e;
    var x := d[k];
    assert e == Entry(x.pair, Abs(x.value));
    assert Entry(x.pair, Some(x.value)) in Unstack(mm);
    j, i := UnstackFromOrigin(mm, 0, Entry(x.pair, Some(x.value)));
  }

  /** Every off-diagonal defined position yields a candidate. */
  lemma CandidateAt(m: CorrMatrix, i: nat, j: nat)
    requires m.Valid() && i < |m.names| && j < |m.names| && i != j && m.cells[i][j].Some?
    ensures Entry(Pair(m.names[j], m.names[i]), Abs(m.cells[i][j].value)) in Candidates(m)
  {
    var mm := Masked(m);
    UnstackFromHas(mm, 0, j, i);
    var x := Entry(Pair(m.names[j], m.names[i]), m.cells[i][j].value);
    assert x in DropUndefined(Unstack(mm));
    var d := DropUndefined(Unstack(mm));
    var k :| 0 <= k < |d| && d[k] == x;
    assert Candidates(m)[k] == Entry(x.pair, Abs(x.value));
  }

  lemma PairsDistinctConcat<V>(a: seq<Entry<V>>, b: seq<Entry<V>>)
    requires PairsDistinct(a) && PairsDistinct(b)
    requires forall x, y :: 0 <= x < |a| && 0 <= y < |b| ==> a[x].pair != b[y].pair
    ensures PairsDistinct(a + b)
  {
    var c := a + b;
    forall x, y | 0 <= x < y < |c| ensures c[x].pair != c[y].pair {
      if y < |a| {
        assert c[x] == a[x] && c[y] == a[y];
      } else if x >= |a| {
        assert c[x] == b[x - |a|] && c[y] == b[y - |a|];
      } else {
        assert c[x] == a[x] && c[y] == b[y - |a|];
      }
    }
  }

  lemma {:induction false} UnstackFromPairsDistinct(m: CorrMatrix, j: nat)
    requires m.Valid() && Distinct(m.names)
    ensures PairsDistinct(UnstackFrom(m, j))
    ensures forall k :: 0 <= k < |UnstackFrom(m, j)| ==> UnstackFrom(m, j)[k].pair.first in m.names[j..]
    decreases |m.names| - j
  {
    if j < |m.names| {
      var col := Column(m, j);
      var rest := UnstackFrom(m, j + 1);
      UnstackFromPairsDistinct(m, j + 1);
      forall x, y | 0 <= x < |col| && 0 <= y < |rest| ensures col[x].pair != rest[y].pair {
        assert rest[y].pair.first in m.names[j + 1..];
        var k :| 0 <= k < |m.names[j + 1..]| && m.names[j + 1..][k] == rest[y].pair.first;
        assert m.names[j + 1 + k] == rest[y].pair.first;
      }
      PairsDistinctConcat(col, rest);
      forall k | 0 <= k < |col + rest| ensures (col + rest)[k].pair.first in m.names[j..] {
        if k < |col| {
          assert m.names[j..][0] == m.names[j];
        } else {
          assert (col + rest)[k] == rest[k - |col|];
          assert m.names[j + 1..] == m.names[j..][1..];
        }
      }
    }
  }

  lemma {:induction false} DropUndefinedPairsDistinct(s: seq<Entry<Option<real>>>)
    requires PairsDistinct(s)
    ensures PairsDistinct(DropUndefined(s))
    decreases |s|
  {
    if s != [] {
      PairsDistinctTail(s);
      DropUndefinedPairsDistinct(s[1..]);
      var r := DropUndefined(s[1..]);
      forall k | 0 <= k < |r| ensures r[k].pair != s[0].pair {
        assert r[k] in r;
        var x :| x in s[1..] && x == Entry(r[k].pair, Some(r[k].value));
        var t :| 0 <= t < |s[1..]| && s[1..][t] == x;
      }
      if s[0].value.Some? {
        PairsDistinctConcat([Entry(s[0].pair, s[0].value.value)], r);
      }
    }
  }

  /** With distinct labels, no ordered pair occurs twice among the candidates. */
  lemma CandidatesPairsDistinct(m: CorrMatrix)
    requires m.Valid() && Distinct(m.names)
    ensures PairsDistinct(Candidates(m))
  {
    UnstackFromPairsDistinct(Masked(m), 0);
    DropUndefinedPairsDistinct(Unstack(Masked(m)));
    var d := DropUndefined(Unstack(Masked(m)));
    var c := Candidates(m);
    assert forall k :: 0 <= k < |c| ==> c[k].pair == d[k].pair;
  }

  lemma {:induction false} MultisetAtMostOnce<T>(s: seq<T>, x: T)
    requires Distinct(s)
    ensures multiset(s)[x] <= 1
    decreases |s|
  {
    if s != [] {
      assert s == [s[0]] + s[1..];
      assert Distinct(s[1..]) by {
        forall i, j | 0 <= i < j < |s[1..]| ensures s[1..][i] != s[1..][j] {
          assert s[1..][i] == s[i + 1] && s[1..][j] == s[j + 1];
        }
      }
      MultisetAtMostOnce(s[1..], x);
      if x == s[0] {
        assert x !in s[1..] by {
          forall k | 0 <= k < |s[1..]| ensures s[1..][k] != x {
            assert s[1..][k] == s[k + 1];
          }
        }
      }
    }
  }

  lemma MultisetTwice<T>(s: seq<T>, a: nat, b: nat)
    requires a < b < |s| && s[a] == s[b]
    ensures multiset(s)[s[a]] >= 2
  {
    assert s == s[..a] + [s[a]] + s[a + 1..b] + [s[b]] + s[b + 1..];
  }

  /** With distinct labels, no ordered pair occurs twice in any ranking. */
  lemma RankingPairsDistinct(m: CorrMatrix, series: seq<Entry<real>>)
    requires m.Valid() && Distinct(m.names) && IsRanking(series, m)
    ensures PairsDistinct(series)
  {
    var c := Candidates(m);
    CandidatesPairsDistinct(m);
    assert Distinct(c) by {
      forall x, y | 0 <= x < y < |c| ensures c[x] != c[y] {
        assert c[x].pair != c[y].pair;
      }
    }
    forall a, b | 0 <= a < b < |series| ensures series[a].pair != series[b].pair {
      if series[a].pair == series[b].pair {
        assert series[a] in multiset(c) && series[b] in multiset(c);
        var x :| 0 <= x < |c| && c[x] == series[a];
        var y :| 0 <= y < |c| && c[y] == series[b];
        assert x == y;
        MultisetTwice(series, a, b);
        MultisetAtMostOnce(c, series[a]);
      }
    }
  }

  /** The unordered pairs {row label, column label} of the off-diagonal
      positions whose correlation is defined. */
  ghost function DefinedPairs(m: CorrMatrix): set<set<string>>
    requires m.Valid()
  {
    set i, j | 0 <= i < |m.names| && 0 <= j < |m.names| && i != j && m.cells[i][j].Some?
      :: {m.names[i], m.names[j]}
  }

  /** Every unordered pair met in a ranking comes from a defined off-diagonal cell. */
  lemma RankingPairsDefined(m: CorrMatrix, series: seq<Entry<real>>)
    requires m.Valid() && multiset(series) == multiset(Candidates(m))
    ensures UnorderedPairs(PairsOf(series)) <= DefinedPairs(m)
  {
    forall u | u in UnorderedPairs(PairsOf(series)) ensures u in DefinedPairs(m) {
      var p :| p in PairsOf(series) && !p.IsSelf() && Unordered(p) == u;
      var k :| 0 <= k < |series| && series[k].pair == p;
      assert series[k] in multiset(Candidates(m));
      var i, j := CandidateOrigin(m, series[k]);
      assert u == {m.names[i], m.names[j]};
    }
  }

  /** With distinct labels, every defined off-diagonal cell gives an unordered
      pair of the ranking. */
  lemma DefinedPairsRanked(m: CorrMatrix, series: seq<Entry<real>>)
    requires m.Valid() && Distinct(m.names) && multiset(series) == multiset(Candidates(m))
    ensures DefinedPairs(m) <= UnorderedPairs(PairsOf(series))
  {
    forall u | u in DefinedPairs(m) ensures u in UnorderedPairs(PairsOf(series)) {
      var i, j :| 0 <= i < |m.names| && 0 <= j < |m.names| && i != j && m.cells[i][j].Some?
                  && u == {m.names[i], m.names[j]};
      DefinedCellRanked(m, series, i, j);
    }
  }

  lemma DefinedCellRanked(m: CorrMatrix, series: seq<Entry<real>>, i: nat, j: nat)
    requires m.Valid() && Distinct(m.names) && multiset(series) == multiset(Candidates(m))
    requires i < |m.names| && j < |m.names| && i != j && m.cells[i][j].Some?
    ensures {m.names[i], m.names[j]} in UnorderedPairs(PairsOf(series))
  {
    CandidateAt(m, i, j);
    var e := Entry(Pair(m.names[j], m.names[i]), Abs(m.cells[i][j].value));
    assert e in multiset(series);
    var k :| 0 <= k < |series| && series[k] == e;
    assert e.pair in PairsOf(series);
    assert !e.pair.IsSelf();
    assert Unordered(e.pair) == {m.names[i], m.names[j]};
  }

  lemma RankingUnorderedPairs(m: CorrMatrix, series: seq<Entry<real>>)
    requires m.Valid() && Distinct(m.names) && IsRanking(series, m)
    ensures UnorderedPairs(PairsOf(series)) == DefinedPairs(m)
  {
    RankingPairsDefined(m, series);
    DefinedPairsRanked(m, series);
  }

  /** With distinct labels, the loop selects exactly min(TopK, number of
      unordered label pairs with a defined off-diagonal correlation). */
  lemma SelectionCount(m: CorrMatrix, series: seq<Entry<real>>)
    requires m.Valid() && Distinct(m.names) && IsRanking(series, m)
    ensures |Selected(series)| == Min(TopK, |DefinedPairs(m)|)
  {
    RankingPairsDistinct(m, series);
    SelectedCount(series);
    RankingUnorderedPairs(m, series);
  }

  /** Every selected entry comes from an off-diagonal position whose value is
      defined: no diagonal cell and no NaN cell is ever selected. */
  lemma SelectedFromDefinedCells(m: CorrMatrix, series: seq<Entry<real>>, e: Entry<real>) returns (i: nat, j: nat)
    requires m.Valid() && IsRanking(series, m) && e in Selected(series)
    ensures i < |m.names| && j < |m.names| && i != j && m.cells[i][j].Some?
    ensures e == Entry(Pair(m.names[j], m.names[i]), Abs(m.cells[i][j].value))
  {
    SelectedSpec(series);
    SubseqMembers(Selected(series), series);
    assert e in multiset(Candidates(m));
    i, j := CandidateOrigin(m, e);
  }

  // ---------------------------------------------------------------------
  // Image paths
  // ---------------------------------------------------------------------

  /** `f"eda_plots/{feat1}_vs_{feat2}.png"`. */
  function PlotPath(p: Pair): string
  {
    "eda_plots/" + p.first + "_vs_" + p.second + ".png"
  }

  /** One plot path per selected entry, in selection order. */
  function ImagePaths(s: seq<Entry<real>>): seq<string>
  {
    if s == [] then [] else ImagePaths(s[..|s| - 1]) + [PlotPath(s[|s| - 1].pair)]
  }

  lemma ImagePathsSnoc(s: seq<Entry<real>>, e: Entry<real>)
    ensures ImagePaths(s + [e]) == ImagePaths(s) + [PlotPath(e.pair)]
  {
    assert (s + [e])[..|s|] == s;
  }

  /** The heatmap path, then one plot path per chosen entry. */
  function Images(chosen: seq<Entry<real>>): seq<string>
  {
    [HeatmapPath] + ImagePaths(chosen)
  }

  /** Selecting one more entry appends its plot path. */
  lemma ImagesSnoc(s: seq<Entry<real>>, e: Entry<real>)
    ensures Images(s + [e]) == Images(s) + [PlotPath(e.pair)]
  {
    ImagePathsSnoc(s, e);
    ConcatAssoc([HeatmapPath], ImagePaths(s), [PlotPath(e.pair)]);
  }

  /** The `eda_images` list the stage leaves. */
  ghost function EdaImages(series: seq<Entry<real>>): seq<string>
  {
    Images(Selected(series))
  }

  lemma {:induction false} ImagePathsAt(s: seq<Entry<real>>)
    ensures |ImagePaths(s)| == |s|
    ensures forall k :: 0 <= k < |s| ==> ImagePaths(s)[k] == PlotPath(s[k].pair)
    decreases |s|
  {
    if s != [] {
      ImagePathsAt(s[..|s| - 1]);
    }
  }

  /** `eda_images` starts with the heatmap and then holds one plot path per
      selected pair, in selection order: 1 + count paths, at most 1 + TopK. */
  lemma EdaImagesSpec(series: seq<Entry<real>>)
    ensures EdaImages(series)[0] == HeatmapPath
    ensures |EdaImages(series)| == 1 + |Selected(series)| <= 1 + TopK
    ensures forall k :: 0 <= k < |Selected(series)| ==>
              EdaImages(series)[k + 1] == PlotPath(Selected(series)[k].pair)
  {
    SelectedSpec(series);
    ImagePathsAt(Selected(series));
  }

  // ---------------------------------------------------------------------
  // Repeated labels
  // ---------------------------------------------------------------------

  /** The mirror test does not look for the pair itself, so a series that
      holds one ordered pair twice has it selected twice although it is one
      unordered pair. The flattening of a matrix with a repeated label holds
      such a key (`RepeatedLabelUnstack`), so the count lemmas above ask for
      distinct labels. */
  lemma RepeatedPairSelectedTwice()
    ensures var s := [Entry(Pair("a", "b"), 0.5), Entry(Pair("a", "b"), 0.5)];
            Selected(s) == s && |UnorderedPairs(PairsOf(s))| == 1
  {
    var e := Entry(Pair("a", "b"), 0.5);
    var s := [e, e];
    assert PairsOf<real>([]) == {};
    assert s[1..] == [e];
    PairsOfSnoc([], e);
    assert [] + [e] == [e];
    PairsOfSnoc([e], e);
    assert Pair("a", "b").Mirror() == Pair("b", "a") != Pair("a", "b");
    assert Pick(s, []) == [e] + Pick([e], [e]);
    assert Pick([e], [e]) == [e] + Pick([], [e, e]);
    assert PairsOf(s) == {e.pair};
    assert UnorderedPairs({e.pair}) == {Unordered(e.pair)};
  }

  /** A symmetric matrix over the labels `a, a, b` whose off-diagonal
      correlations are all 0.5. */
  function RepeatedLabelMatrix(): (m: CorrMatrix)
    ensures m.Valid()
  {
    CorrMatrix(["a", "a", "b"],
      [[Some(1.0), Some(0.5), Some(0.5)],
       [Some(0.5), Some(1.0), Some(0.5)],
       [Some(0.5), Some(0.5), Some(1.0)]])
  }

  /** Its masked matrix flattened column by column: the key `(a, b)` occurs
      twice with a defined value, once from each column labelled `a`. */
  lemma RepeatedLabelUnstack()
    ensures var a, b, h := "a", "b", Some(0.5);
            Unstack(Masked(RepeatedLabelMatrix())) ==
              [Entry(Pair(a, a), None), Entry(Pair(a, a), h), Entry(Pair(a, b), h),
               Entry(Pair(a, a), h), Entry(Pair(a, a), None), Entry(Pair(a, b), h),
               Entry(Pair(b, a), h), Entry(Pair(b, a), h), Entry(Pair(b, b), None)]
  {
    var mm := Masked(RepeatedLabelMatrix());
    var a, b, h := "a", "b", Some(0.5);
    assert mm.cells[0] == [None, h, h];
    assert mm.cells[1] == [h, None, h];
    assert mm.cells[2] == [h, h, None];
    var c0 := [Entry(Pair(a, a), None), Entry(Pair(a, a), h), Entry(Pair(a, b), h)];
    var c1 := [Entry(Pair(a, a), h), Entry(Pair(a, a), None), Entry(Pair(a, b), h)];
    var c2 := [Entry(Pair(b, a), h), Entry(Pair(b, a), h), Entry(Pair(b, b), None)];
    assert Column(mm, 0) == c0;
    assert Column(mm, 1) == c1;
    assert Column(mm, 2) == c2;
    assert UnstackFrom(mm, 3) == [];
    assert UnstackFrom(mm, 2) == c2;
    assert UnstackFrom(mm, 1) == c1 + c2;
    assert UnstackFrom(mm, 0) == c0 + (c1 + c2);
  }
}
