/** The pipeline: the shared workspace the stages read and write, one method
    per stage, and the sequence the script runs. A stage that reads a key the
    workspace does not hold fails the way a dictionary lookup does, and
    changes nothing. */
module Pipeline {
  import opened Options
  import opened Seqs
  import opened Frames
  import opened Cleaning
  import opened Sorting
  import opened PairSelection

  /** The cleaned frame is well formed and keeps its column types, so the
      sort finds a key column exactly when the loaded frame has a numeric
      one. */
  lemma CleanedSorts(frame: Frame)
    requires frame.WellFormed()
    ensures CleanFrame(frame).WellFormed()
    ensures SortFrame(CleanFrame(frame)).NoNumericColumns? <==> Numeric !in frame.types
  {
  }

  /** Labels that differ only in case and surrounding spaces are one label
      once cleaned, so sorting the cleaned frame by the first of them
      raises. */
  lemma NormalizedLabelsCollide()
    ensures var f := Frame(["Price", " price"], [Numeric, Numeric], []);
      f.WellFormed() && SortFrame(CleanFrame(f)).RepeatedKeyLabel?
  {
    var f := Frame(["Price", " price"], [Numeric, Numeric], []);
    LabelsCollide();
    var c := CleanFrame(f);
    assert c.columns[0] == NormalizeHeader(f.columns[0]);
    assert c.columns[1] == NormalizeHeader(f.columns[1]);
    assert !LabelUnique(c.columns, 0);
  }

  /** What a stage reports back (the script returns a message built from
      these values). `MissingKey` is the `KeyError` of reading an unset key;
      `NonUniqueLabel` is the `ValueError` `sort_values` raises when the key
      column's label is shared by another column. */
  datatype StageOutcome =
    | Loaded(rows: nat, columns: nat)
    | Cleaned(rows: nat)
    | NoNumericToSort
    | SortedOn(column: string)
    | NonUniqueLabel(column: string)
    | EdaComplete
    | MissingKey(key: string)

  /** The `shared_data` dictionary: one optional field per key. */
  class Workspace {
    var df: Option<Frame>
    var dfClean: Option<Frame>
    var dfSorted: Option<Frame>
    var edaImages: Option<seq<string>>

    /** Every frame the workspace holds is well formed. */
    ghost predicate Valid()
      reads this`df, this`dfClean, this`dfSorted
    {
      && (df.Some? ==> df.value.WellFormed())
      && (dfClean.Some? ==> dfClean.value.WellFormed())
      && (dfSorted.Some? ==> dfSorted.value.WellFormed())
    }

    /** `shared_data = {}`. */
    constructor ()
      ensures Valid()
      ensures df == None && dfClean == None && dfSorted == None && edaImages == None
    {
      df, dfClean, dfSorted, edaImages := None, None, None, None;
    }

    /** `load_csv_task`: the parsed file is given. */
    method LoadCsv(frame: Frame) returns (outcome: StageOutcome)
      requires Valid() && frame.WellFormed()
      modifies this`df
      ensures Valid()
      ensures df == Some(frame)
      ensures outcome == Loaded(|frame.rows|, |frame.columns|)
    {
      df := Some(frame);
      outcome := Loaded(|frame.rows|, |frame.columns|);
    }

    /** `clean_data_task`: reads `df`, writes `df_clean`. */
    method CleanData() returns (outcome: StageOutcome)
      requires Valid()
      modifies this`dfClean
      ensures Valid()
      ensures old(df).None? ==> outcome == MissingKey("df") && dfClean == old(dfClean)
      ensures old(df).Some? ==>
                dfClean == Some(CleanFrame(old(df).value)) &&
                outcome == Cleaned(|CleanFrame(old(df).value).rows|)
    {
      if df.None? {
        outcome := MissingKey("df");
        return;
      }
      var cleaned := CleanFrame(df.value);
      dfClean := Some(cleaned);
      outcome := Cleaned(|cleaned.rows|);
    }

    /** `sort_data_task`: reads `df_clean`; writes `df_sorted` only when a
        numeric column exists and its label is unique. */
    method SortData() returns (outcome: StageOutcome)
      requires Valid()
      modifies this`dfSorted
      ensures Valid()
      ensures old(dfClean).None? ==> outcome == MissingKey("df_clean") && dfSorted == old(dfSorted)
      ensures old(dfClean).Some? ==>
                match SortFrame(old(dfClean).value)
                case NoNumericColumns =>
                  outcome == NoNumericToSort && dfSorted == old(dfSorted)
                case RepeatedKeyLabel(_, column) =>
                  outcome == NonUniqueLabel(column) && dfSorted == old(dfSorted)
                case Sorted(_, column, frame) =>
                  outcome == SortedOn(column) && dfSorted == Some(frame)
    {
      if dfClean.None? {
        outcome := MissingKey("df_clean");
        return;
      }
      match SortFrame(dfClean.value)
      case NoNumericColumns =>
        outcome := NoNumericToSort;
      case RepeatedKeyLabel(_, column) =>
        outcome := NonUniqueLabel(column);
      case Sorted(_, column, frame) =>
        dfSorted := Some(frame);
        outcome := SortedOn(column);
    }

    /** `run_eda_task`: reads `df_sorted`, writes `eda_images`. The ranking
        (the flattened correlation series of the sorted frame, sorted in
        descending order) is given; the loop walks it whatever it holds. */
    method RunEda(ranking: seq<Entry<real>>) returns (outcome: StageOutcome)
      requires Valid()
      modifies this`edaImages
      ensures Valid()
      ensures old(dfSorted).None? ==> outcome == MissingKey("df_sorted") && edaImages == old(edaImages)
      ensures old(dfSorted).Some? ==> outcome == EdaComplete && edaImages == Some(EdaImages(ranking))
    {
      if dfSorted.None? {
        outcome := MissingKey("df_sorted");
        return;
      }
      edaImages := Some([HeatmapPath]);
      PlotTopPairs(ranking);
      outcome := EdaComplete;
    }

    /** The selection loop of `run_eda_task`: walks the ranking, keeps the
        set of plotted pairs and their count, appends one plot path per
        selected pair to `eda_images`, and stops after `TopK` pairs. */
    method PlotTopPairs(ranking: seq<Entry<real>>)
      requires edaImages == Some([HeatmapPath])
      modifies this`edaImages
      ensures edaImages == Some(EdaImages(ranking))
    {
      var plotted: set<Pair> := {};
      var count := 0;
      ghost var chosen: seq<Entry<real>> := [];
      ghost var target := Selected(ranking);
      var i := 0;
      assert Images([]) == [HeatmapPath];
      assert ranking[0..] == ranking;
      while i < |ranking|
        invariant 0 <= i <= |ranking|
        invariant count == |chosen| < TopK
        invariant plotted == PairsOf(chosen)
        invariant chosen + Pick(ranking[i..], chosen) == target
        invariant edaImages == Some(Images(chosen))
      {
        var e := ranking[i];
        if e.pair.Mirror() in plotted || e.pair.first == e.pair.second {
          SelectionSkip(ranking, i, chosen);
          i := i + 1;
          continue;
        }
        SelectionTake(ranking, i, chosen);
        ConcatAssoc(chosen, [e], Pick(ranking[i + 1..], chosen + [e]));
        PairsOfSnoc(chosen, e);
        ImagesSnoc(chosen, e);
        plotted := plotted + {e.pair};
        count := count + 1;
        chosen := chosen + [e];
        edaImages := Some(edaImages.value + [PlotPath(e.pair)]);
        if count >= TopK {
          break;
        }
        i := i + 1;
      }
      SelectionEnd(ranking, chosen);
      assert chosen == target;
    }

    /** The script's main sequence on a fresh workspace: load, clean, sort,
        analyse. A stage that raises stops the run, and its outcome is the
        run's. With no numeric column the sort writes nothing and the analysis
        fails reading `df_sorted`; when the key column's label is not unique
        the sort raises; otherwise `df_sorted` is the cleaned frame sorted by
        its first numeric column and `eda_images` is filled. */
    method RunPipeline(frame: Frame, ranking: seq<Entry<real>>) returns (outcome: StageOutcome)
      requires Valid() && frame.WellFormed()
      requires df == None && dfClean == None && dfSorted == None && edaImages == None
      modifies this
      ensures Valid()
      ensures df == Some(frame) && dfClean == Some(CleanFrame(frame))
      ensures Numeric !in frame.types ==>
                outcome == MissingKey("df_sorted") && dfSorted == None && edaImages == None
      ensures SortFrame(CleanFrame(frame)).RepeatedKeyLabel? ==>
                && outcome == NonUniqueLabel(SortFrame(CleanFrame(frame)).column)
                && dfSorted == None && edaImages == None
      ensures SortFrame(CleanFrame(frame)).Sorted? ==>
                && outcome == EdaComplete
                && dfSorted == Some(SortFrame(CleanFrame(frame)).frame)
                && edaImages == Some(EdaImages(ranking))
    {
      CleanedSorts(frame);
      ghost var clean := CleanFrame(frame);
      outcome := LoadCsv(frame);
      outcome := CleanData();
      assert df == Some(frame) && dfClean == Some(clean) && dfSorted == None && edaImages == None;
      ghost var sorted := SortFrame(clean);
      outcome := SortData();
      assert df == Some(frame) && dfClean == Some(clean) && edaImages == None;
      assert sorted.RepeatedKeyLabel? <==> outcome.NonUniqueLabel?;
      if outcome.NonUniqueLabel? {
        assert outcome == NonUniqueLabel(sorted.column) && dfSorted == None;
        return;
      }
      assert sorted.NoNumericColumns? ==> dfSorted == None;
      assert sorted.Sorted? ==> dfSorted == Some(sorted.frame);
      outcome := RunEda(ranking);
      assert sorted.NoNumericColumns? ==> outcome == MissingKey("df_sorted") && edaImages == None;
      assert sorted.Sorted? ==> outcome == EdaComplete && edaImages == Some(EdaImages(ranking));
    }
  }

}
