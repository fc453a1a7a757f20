# Multi-agent data analyst: verified model of the pipeline stages

The script runs four data stages in a fixed order over a dictionary they share,
`shared_data`:

1. load a CSV file into `df`;
2. clean it into `df_clean`. Duplicate rows are dropped (the first copy is
   kept), then every row with a null. The column labels are stripped,
   lower-cased and have their spaces turned into underscores.
3. sort the cleaned frame by its first numeric column into `df_sorted`, or
   report that there is no numeric column and write nothing. `sort_values`
   raises `ValueError` when another column carries the key column's label,
   and the run stops there;
4. run the exploratory analysis.
   - It flattens the correlation matrix of `df_sorted` into a series keyed by
     (column label, row label), with the diagonal masked, NaN entries dropped
     and absolute values taken.
   - It sorts that series in descending order.
   - It walks the series and plots at most three pairs. A pair is skipped when
     its mirror was already plotted or when it pairs a label with itself.
   - It records the heatmap path and one scatter-plot path per plotted pair in
     `eda_images`.

The model has seven modules:

| module | what it holds |
|---|---|
| `Options` | an `Option` type |
| `Seqs` | order-preserving subsequences and duplicate-free sequences |
| `Frames` | the frame: labelled, typed columns and rows of optional cells, plus the numeric-column positions |
| `Cleaning` | row cleaning and header normalisation, as pure functions |
| `Sorting` | the key order and an insertion sort standing in for `sort_values` |
| `PairSelection` | the flattening, the selection as a specification function, and the `eda_images` paths |
| `Pipeline` | the `Workspace` class, one method per stage, and `RunPipeline`, the script's main sequence |

`Pipeline.Workspace` models `shared_data`: one optional field per key. Its
methods read one field and write the next. The selection loop of
`run_eda_task` is the imperative method `Pipeline.Workspace.PlotTopPairs`.
It keeps the `plotted` set and the `count` counter, appends to `edaImages`
in place, and breaks at three. This loop is proved against the specification
function `PairSelection.Selected`. The lemmas in `PairSelection` prove what
`Selected` means:

- how many pairs it picks;
- that it never picks a self-pair, an undefined cell, or both orientations of
  a pair;
- which orientation wins;
- that its order follows the series' order.

A stage that reads a key the workspace does not hold returns
`MissingKey(key)`. This models the `KeyError` raised by the dictionary lookup.
The stage changes nothing in that case.

## Model

| member | source | states |
|---|---|---|
| `Cleaning.DedupFrom` | Multi_Agent_Data_Analyst.py:28 | `drop_duplicates()` as a front-to-back scan with the set of rows already met: the result is a subsequence of the input with no two rows equal, and it holds exactly the input's rows that are not in that set; `DropDuplicatesKeepsFirst` pins which copy is kept |
| `Cleaning.DropDuplicates` | Multi_Agent_Data_Analyst.py:28 | the scan started with no row met; no contract of its own, its properties are those of `DedupFrom` and the rows for `CleanRowsSpec` and `DropDuplicatesKeepsFirst` |
| `Cleaning.DropNa` | Multi_Agent_Data_Analyst.py:28 | `dropna()`: the result is a subsequence of the input and holds exactly the input's rows that have no null cell |
| `Cleaning.CleanRows` | Multi_Agent_Data_Analyst.py:28 | `drop_duplicates().dropna()`; no contract of its own, see `CleanRowsSpec` and `CleanRowsIdempotent` |
| `Cleaning.CleanRowsSpec` | Multi_Agent_Data_Analyst.py:28 | the cleaned rows are an order-preserving subsequence of the input, no two are equal, none holds a null, and a row survives exactly when it is in the input and complete |
| `Cleaning.DropDuplicatesKeepsFirst` | Multi_Agent_Data_Analyst.py:28 | deduplication keeps the first occurrence: appending a row that already occurred adds nothing, appending a new one adds it at the end |
| `Cleaning.CleanRowsIdempotent` | Multi_Agent_Data_Analyst.py:28 | cleaning already-cleaned rows changes nothing |
| `Cleaning.TrimLeft` | Multi_Agent_Data_Analyst.py:29 | `lstrip()`: removes whitespace from the front one character at a time; its contract bounds the length, and `TrimLeftSpec` states what it returns |
| `Cleaning.TrimRight` | Multi_Agent_Data_Analyst.py:29 | `rstrip()`: removes whitespace from the back one character at a time; its contract bounds the length, and `TrimRightSpec` states what it returns |
| `Cleaning.TrimLeftSpec` | Multi_Agent_Data_Analyst.py:29 | the result is a suffix of the input, everything removed is whitespace, and the result does not begin with whitespace |
| `Cleaning.TrimRightSpec` | Multi_Agent_Data_Analyst.py:29 | the result is a prefix of the input, everything removed is whitespace, and the result does not end with whitespace |
| `Cleaning.Strip` | Multi_Agent_Data_Analyst.py:29 | `strip()` as `rstrip` after `lstrip`; no contract of its own, see `StripContents`, `StripCut` and `StripEdges` |
| `Cleaning.Lower` | Multi_Agent_Data_Analyst.py:29 | `lower()` on ASCII, character by character; no contract of its own, see `NormalizeHeaderPointwise` |
| `Cleaning.SpacesToUnderscores` | Multi_Agent_Data_Analyst.py:29 | `replace(" ", "_")`, character by character; no contract of its own, see `NormalizeHeaderPointwise` |
| `Cleaning.NormalizeHeader` | Multi_Agent_Data_Analyst.py:29 | `col.strip().lower().replace(" ", "_")`; no contract of its own, its meaning is stated by `NormalizeHeaderSpec` and pinned by `NormalizedAtUnique` |
| `Cleaning.StripContents` | Multi_Agent_Data_Analyst.py:29 | the stripped label is the window of the input that begins at `StripStart` |
| `Cleaning.StripCut` | Multi_Agent_Data_Analyst.py:29 | everything of the input before and after that window is whitespace |
| `Cleaning.StripEdges` | Multi_Agent_Data_Analyst.py:29 | the stripped label neither begins nor ends with whitespace |
| `Cleaning.NormalizeHeaderPointwise` | Multi_Agent_Data_Analyst.py:29 | lowering and replacing spaces map the stripped label character by character |
| `Cleaning.NormalizeHeaderAt` | Multi_Agent_Data_Analyst.py:29 | the normalised label is the input's window between its leading and trailing whitespace, with each character normalised: the window begins at `StripStart`, its first and last characters are not whitespace, and everything outside it is whitespace |
| `Cleaning.NormalizedAtUnique` | Multi_Agent_Data_Analyst.py:29 | that description admits exactly one label, the normalised one, so it pins `strip().lower().replace(" ", "_")` completely |
| `Cleaning.NormalizeHeaderChars` | Multi_Agent_Data_Analyst.py:29 | the normalised label holds no space and no upper-case letter, and neither begins nor ends with whitespace |
| `Cleaning.NormalizeHeaderSpec` | Multi_Agent_Data_Analyst.py:29 | all of the above: the input's window between its leading and trailing whitespace, normalised character by character, with no space, no upper case and no edge whitespace |
| `Cleaning.LabelsCollide` | Multi_Agent_Data_Analyst.py:29 | `"Price"` and `" price"` are different labels whose normalised forms are both `price` |
| `Cleaning.NormalizeHeaderIdempotent` | Multi_Agent_Data_Analyst.py:29 | normalising a normalised label changes nothing |
| `Cleaning.NormalizeHeaders` | Multi_Agent_Data_Analyst.py:29 | the list comprehension over `df.columns`: one label per column, in order, each normalised; its contract keeps the number of labels |
| `Cleaning.CleanFrame` | Multi_Agent_Data_Analyst.py:26-31 | cleaning keeps a frame well formed, keeps its column types and keeps the number of columns |
| `Frames.NumericFrom` | Multi_Agent_Data_Analyst.py:35 | the listed positions are exactly the numeric columns, in increasing column order |
| `Frames.FirstNumericColumn` | Multi_Agent_Data_Analyst.py:35-38 | there is no numeric position exactly when no column is numeric; otherwise the first one is numeric and no column before it is |
| `Sorting.KeyOf` | Multi_Agent_Data_Analyst.py:38 | the value `sort_values(by=…)` compares in a row: the cell's number, or missing for a null; no contract of its own, see `KeyOfNumeric` |
| `Sorting.KeyLe` | Multi_Agent_Data_Analyst.py:38 | ascending order with missing keys after every present one (`na_position='last'`); no contract of its own, `KeyLeTotal` and the `SortRows` row use it |
| `Sorting.SortedBy` | Multi_Agent_Data_Analyst.py:38 | the order `sort_values(by=…, ascending=True)` leaves: `KeyLe` holds between every earlier and later row; no contract of its own, it is what `SortRows` and `SortFrame` promise |
| `Sorting.KeyOfNumeric` | Multi_Agent_Data_Analyst.py:35-38 | in a well-formed frame a row's key in a numeric column is missing exactly when its cell is null, and otherwise is the cell's number |
| `Sorting.Insert` | Multi_Agent_Data_Analyst.py:38 | inserting into sorted rows gives sorted rows holding the old rows and the new one |
| `Sorting.SortRows` | Multi_Agent_Data_Analyst.py:38 | the result is a permutation of the rows that does not decrease in the key, with missing keys last |
| `Sorting.SortFrame` | Multi_Agent_Data_Analyst.py:33-40 | there is no key exactly when no column is numeric; otherwise the key is the first numeric column and the column reported is its label. When another column carries the same label the sort is refused. Otherwise the sorted frame has the same columns and types and is well formed, and its rows are a permutation of the input's, non-decreasing in the key |
| `PairSelection.Masked` | Multi_Agent_Data_Analyst.py:60 | masking keeps the matrix square and its labels |
| `PairSelection.Column` | Multi_Agent_Data_Analyst.py:61 | one column of the matrix, top to bottom, keyed (column label, row label) as `unstack()` keys it; no contract of its own, see `CandidateOrigin` and `CandidateAt` |
| `PairSelection.UnstackFrom` | Multi_Agent_Data_Analyst.py:61 | `unstack()` from a given column on: the columns one after another; no contract of its own, see `CandidateOrigin` and `CandidateAt` |
| `PairSelection.Unstack` | Multi_Agent_Data_Analyst.py:61 | `unstack()` of the whole matrix; no contract of its own, see `CandidateOrigin`, `CandidateAt` and `RepeatedLabelUnstack` |
| `PairSelection.DropUndefined` | Multi_Agent_Data_Analyst.py:62 | an entry survives exactly when its cell is defined |
| `PairSelection.Absolute` | Multi_Agent_Data_Analyst.py:63 | `abs()`: same length and keys, each value made absolute; its contract keeps the length, `CandidateOrigin` states the values |
| `PairSelection.Candidates` | Multi_Agent_Data_Analyst.py:59-63 | the masked, flattened, defined and absolute series; no contract of its own, see `CandidateOrigin`, `CandidateAt` and `CandidatesPairsDistinct` |
| `PairSelection.IsRanking` | Multi_Agent_Data_Analyst.py:64 | `sort_values(ascending=False)`: a permutation of the candidates whose values do not increase; a predicate the ranking lemmas take as hypothesis |
| `PairSelection.CandidateOrigin` | Multi_Agent_Data_Analyst.py:59-63 | every flattened entry is keyed (column label, row label) of an off-diagonal cell with a defined value, and carries that value's absolute value |
| `PairSelection.CandidateAt` | Multi_Agent_Data_Analyst.py:59-63 | every defined off-diagonal cell gives a flattened entry |
| `PairSelection.CandidatesPairsDistinct` | Multi_Agent_Data_Analyst.py:59-63 | with distinct labels, no key occurs twice in the flattened series |
| `PairSelection.RankingPairsDistinct` | Multi_Agent_Data_Analyst.py:64 | with distinct labels, no key occurs twice in any descending ordering of the series |
| `PairSelection.Skipped` | Multi_Agent_Data_Analyst.py:70-71 | the loop's `continue` test: the mirror was plotted or the pair is a self-pair; no contract of its own, see `SelectionSkip` |
| `PairSelection.Pick` | Multi_Agent_Data_Analyst.py:67-83 | the loop from a given state: stop at three or at the end, skip per `Skipped`, otherwise take the entry; no contract of its own, see `PickSpec`, `SelectionSkip` and `SelectionTake` |
| `PairSelection.Selected` | Multi_Agent_Data_Analyst.py:67-83 | the loop from `plotted = set()`, `count = 0`; no contract of its own, see `SelectedSpec`, `PickIsFirstOrientations`, `SelectedCount` and `SelectionCount` |
| `PairSelection.PickSpec` | Multi_Agent_Data_Analyst.py:67-83 | from any loop state, what the rest of the walk selects comes from the rest of the series in its order, keeps the total at most three, and never adds a mirror |
| `PairSelection.SelectionSkip` | Multi_Agent_Data_Analyst.py:70-71 | an entry whose mirror was plotted, or that pairs a label with itself, selects nothing |
| `PairSelection.SelectionTake` | Multi_Agent_Data_Analyst.py:72-83 | any other entry is selected before the rest of the walk |
| `PairSelection.SelectedSpec` | Multi_Agent_Data_Analyst.py:63-72 | the selected entries are an order-preserving subsequence of the series, at most three, free of self-pairs and of mirrored pairs, and non-increasing in absolute value when the series is |
| `PairSelection.PickIsFirstOrientations` | Multi_Agent_Data_Analyst.py:67-83 | when no key repeats, the walk selects the first three of the first-met orientations of the unordered pairs |
| `PairSelection.FirstOrientationsCount` | Multi_Agent_Data_Analyst.py:67-83 | the first-met orientations are as many as the unordered pairs of distinct labels not yet covered |
| `PairSelection.SelectedCount` | Multi_Agent_Data_Analyst.py:67-83 | when no key repeats, exactly min(3, number of unordered pairs of distinct labels in the series) pairs are selected |
| `PairSelection.RankingUnorderedPairs` | Multi_Agent_Data_Analyst.py:59-64 | with distinct labels, the unordered pairs of any ranking are exactly those of the defined off-diagonal cells |
| `PairSelection.SelectionCount` | Multi_Agent_Data_Analyst.py:59-83 | with distinct labels, exactly min(3, number of unordered label pairs with a defined off-diagonal correlation) pairs are selected |
| `PairSelection.FirstOrientationWins` | Multi_Agent_Data_Analyst.py:69-72 | when no key repeats, of two mirrored entries, the one met later is never selected |
| `PairSelection.SelectedFromDefinedCells` | Multi_Agent_Data_Analyst.py:59-62 | every selected entry comes from an off-diagonal cell whose value is defined: no diagonal cell and no NaN is ever selected |
| `PairSelection.PlotPath` | Multi_Agent_Data_Analyst.py:78 | `f"eda_plots/{feat1}_vs_{feat2}.png"`; no contract of its own, see `EdaImagesSpec` |
| `PairSelection.ImagePaths` | Multi_Agent_Data_Analyst.py:78-81 | the paths appended by the loop, one per selected entry in order; no contract of its own, see `ImagesSnoc` and `EdaImagesSpec` |
| `PairSelection.Images` | Multi_Agent_Data_Analyst.py:54-56 | `[heatmap_path]` followed by those paths; no contract of its own, see `ImagesSnoc` and `EdaImagesSpec` |
| `PairSelection.EdaImages` | Multi_Agent_Data_Analyst.py:52-83 | the `eda_images` list the stage leaves for a series; no contract of its own, see `EdaImagesSpec` and `PlotTopPairs` |
| `PairSelection.ImagesSnoc` | Multi_Agent_Data_Analyst.py:78-81 | selecting one more pair appends its plot path |
| `PairSelection.EdaImagesSpec` | Multi_Agent_Data_Analyst.py:52-56 | `eda_images` starts with the heatmap path and then holds `eda_plots/<feat1>_vs_<feat2>.png` for each selected pair, in selection order; its length is one plus the number selected, and at most four |
| `PairSelection.RepeatedPairSelectedTwice` | Multi_Agent_Data_Analyst.py:70 | the mirror test does not look for the pair itself, so a series holding one key twice selects it twice, although it has one unordered pair |
| `PairSelection.RepeatedLabelUnstack` | Multi_Agent_Data_Analyst.py:60-61 | for a symmetric matrix over the labels `a, a, b`, the masked flattening holds the key `(a, b)` twice with a defined value, once from each column labelled `a`: such a series comes from a real matrix |
| `Pipeline.CleanedSorts` | Multi_Agent_Data_Analyst.py:26-40 | the cleaned frame is well formed, and the sort finds a key column in it exactly when the loaded frame has a numeric column |
| `Pipeline.NormalizedLabelsCollide` | Multi_Agent_Data_Analyst.py:26-38 | a well-formed frame whose labels `"Price"` and `" price"` are both numeric columns cleans into one whose sort is refused, because both labels become `price` |
| `Pipeline.Workspace.constructor` | Multi_Agent_Data_Analyst.py:12 | the workspace starts with every key unset |
| `Pipeline.Workspace.LoadCsv` | Multi_Agent_Data_Analyst.py:22-24 | `df` holds the given frame, and the outcome reports its shape |
| `Pipeline.Workspace.CleanData` | Multi_Agent_Data_Analyst.py:26-31 | without `df` the stage fails on that key and changes nothing; otherwise `df_clean` is the cleaned frame and the outcome reports its row count |
| `Pipeline.Workspace.SortData` | Multi_Agent_Data_Analyst.py:33-40 | without `df_clean` the stage fails on that key; with no numeric column it reports so and leaves `df_sorted` as it was; when the key column's label is shared it fails with `NonUniqueLabel` and leaves `df_sorted` as it was; otherwise `df_sorted` is the sorted frame and the outcome names the key column |
| `Pipeline.Workspace.RunEda` | Multi_Agent_Data_Analyst.py:42-85 | without `df_sorted` the stage fails on that key and leaves `eda_images` as it was; otherwise `eda_images` is the heatmap path followed by the plot paths of the selection |
| `Pipeline.Workspace.PlotTopPairs` | Multi_Agent_Data_Analyst.py:67-83 | the loop leaves in `eda_images` exactly the heatmap path followed by one plot path per entry the selection picks, in order |
| `Pipeline.Workspace.RunPipeline` | Multi_Agent_Data_Analyst.py:174-178 | on a fresh workspace, `df` is the loaded frame and `df_clean` the cleaned one. With no numeric column, `df_sorted` stays unset and the analysis fails on that key. When the key column's label is shared, the run stops at the sort with `NonUniqueLabel` and nothing further is written. Otherwise `df_sorted` is the cleaned frame sorted by its first numeric column, and `eda_images` holds the heatmap path and the selection's plot paths |

## Left out

- CSV loading (`pd.read_csv`): the loaded frame is a parameter of `LoadCsv` and `RunPipeline`.
- Column dtypes: a frame carries a given list of column types (`select_dtypes` is not modelled).
- Correlation values: the correlation matrix is an input with `Option<real>` cells, where `None` is NaN. The fact that its labels are the numeric columns of `df_sorted` is not modelled.
- Pipeline.Workspace.RunEda: the descending series is a parameter, `ranking`. The lemmas state their results for any `ranking` that satisfies `PairSelection.IsRanking` for a matrix. The method itself walks whatever it is given.
- Sort order of the series: pandas' `sort_values(ascending=False)` is not stable, so `IsRanking` admits every non-increasing permutation of the flattened entries and leaves tied entries in any order.
- Sorting.SortRows: the result is one particular sorted permutation, an insertion sort. pandas' sort is not stable, so the contract promises only "sorted and a permutation", and nothing about the order of tied rows.
- Sort keys are unbounded integers. Floating-point numeric columns are not modelled.
- Header normalisation covers ASCII only: `strip` removes the ASCII whitespace Python recognises, and `lower` maps `A`–`Z`. Unicode case mapping and Unicode whitespace are not modelled.
- Plotting: the heatmap, the scatter plots, `savefig`, `os.makedirs` and the plot titles are rendering side effects. Only the paths they produce are kept.
- The HTML report (`generate_report_task`) and the writing of `report.html`: this is templating over pandas output.
- crewai agents, tasks and `kickoff`, and the API-key environment variable: this is orchestration and configuration with no logic of its own.
- Stage messages: each stage returns a `StageOutcome` value carrying the numbers or names its message reports. The message text is not built.
- An uncaught `KeyError` or `ValueError` in the script aborts the run. `RunPipeline` returns the failing stage's `MissingKey` or `NonUniqueLabel` outcome instead. It runs the report stage not at all.
- PairSelection.SelectionCount: requires distinct matrix labels. With a repeated label, which normalisation can produce (`"Price"` and `" price"`, see `Cleaning.LabelsCollide`), one key can occur twice in the series. The selection then picks that key twice, because the loop checks only the mirror against `plotted`, so the count can exceed the number of unordered pairs. `RepeatedPairSelectedTwice` proves this for a series that holds one key twice. `RepeatedLabelUnstack` proves that the flattening of a matrix over the labels `a, a, b` holds such a key twice. That the key survives `dropna()`, `abs()` and the sort into the ranking is argued from `DropUndefined` and `IsRanking`, not proved for that matrix.
- PairSelection.FirstOrientationWins: requires that no key repeats in the series. With a repeated label the same key can be met twice, and both copies are selected, as above.
- Mirror tie-break: the selection keeps whichever orientation of a pair comes first in the series, as the code does. No lexicographic canonical key is modelled, because the code has none.
