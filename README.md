# Prediction analytics and cross-check table of the ARGA experiment harness

This project models, in Dafny, the data-transformation core of the
experiment harness: the post-hoc analytics over a sheet of ranked
abstraction predictions, and the merge of the LLM cross-check verdict
folders into one table per task.

**The prediction sheet.** Each row is a task. It holds:
- a ground-truth abstraction `solved`;
- up to three ranked predictions `predicted_1..3`;
- the outcome texts `run_test`, `run_test.1` and `run_test.2`.

A sheet is a `Frame`, defined in `frames.dfy`: the set of columns present plus the rows. Reading a cell follows the code's lookup rules:
- Looking up an absent column raises `KeyError` on the first missing column, in the order the code looks them up.
- `row.get` falls back to its default: `None` for a prediction or `solved`, `"no"` for an outcome.

**Fractions.** Every fraction is a `Ratio` of two naturals. A zero denominator stands for the NaN of an empty sheet.

Each module models one part:

- `Frames.LoadNormalize` is the `load_df` loop. It lower-cases and strips the outcome text of each outcome column present. `Strings` holds Python's `lower()`, `strip()` and whitespace.
- `PredictionStats` holds four operations:
  - `overall_accuracy` and `overlap_stats`, as counts over the rows.
  - `abstraction_wise`: the loop over the sorted label universe, then the sort by accuracy and count.
  - `confusion_summary`: the tally, its `value_counts()` and `head(top_k)`.
- `Confusion` holds two things:
  - The nested row/slot loop that tallies mispredicted (predicted, solved) pairs. `confusion_summary` and `build_confusion_df` share it.
  - `value_counts()`, which counts each pair with both labels present and orders the pairs most frequent first.
- `Heatmap` is the `pivot(...).fillna(0)` of that count table: solved labels as rows, predicted labels as columns, absent combinations 0.
- `CrossCheck` is the fold of the folder listings into the task table, and the report sorted by `task_id`. The listings are a map from (label, verdict) folders to file names.
- `Counting` and `Sorting` are generic support:
  - mask `.sum()` as a counting function with its laws;
  - a stable insertion sort by a total preorder;
  - permutation facts.

Three behaviours of the code worth knowing, which the model follows:

- **Counting unit.** `abstraction_wise` counts rows, that is tasks, holding a label in any slot. It does not count (task, rank) pairs.
- **Conflicts.** The cross-check fold does not detect conflicting verdicts. `incorrect/` is scanned after `correct/`, so a task listed in both ends as "No".
- **No rows to report.** On a sheet that yields no per-label row, `abstraction_wise` raises instead of returning headers only; see Findings.

## Model

| member | source | states |
|---|---|---|
| Frames.LoadNormalize | prediction_stats.py:6-12 | The column loop leaves exactly the normalised frame: each present outcome column lower-cased and stripped, everything else as read. |
| Frames.NormalizedCell | confusion_heatmap.py:6-11 | Per cell, the heatmap's identical `load_df` changes only outcome cells of present columns, to `Normalize` of the raw text. Predictions and `solved` are kept. |
| Frames.NormalizedFrameIdempotent | prediction_stats.py:9-11 | Normalising twice gives the same frame as normalising once. |
| Strings.NormalizeIdempotent | prediction_stats.py:11 | `lower().strip()` of an already normalised text changes nothing. |
| Strings.NormalizeIgnoresPadding | prediction_stats.py:11 | Whitespace around a cell does not change its normalised form. |
| Strings.NormalizedYes | prediction_stats.py:11 | A cell normalises to "yes" only if it is "yes" in some letter case surrounded by whitespace. |
| PredictionStats.LoadedYesFromPadded | prediction_stats.py:11-16 | After loading, a raw cell that is "yes" in any case with whitespace around it counts as a success. |
| PredictionStats.LoadedYesIsPadded | prediction_stats.py:11-19 | After loading, a success at rank k means the raw cell was whitespace, "yes" in some case, then whitespace. No other text succeeds. |
| PredictionStats.OverallAccuracy | prediction_stats.py:14-22 | Fails iff some outcome column is absent, with the first absent one in lookup order as the key. Otherwise all four fractions have the row count as denominator. |
| PredictionStats.AnyCorrectBounds | prediction_stats.py:16-19 | The `any_correct` count is at least each rank's success count and at most their sum. |
| PredictionStats.ThreeTaskExample | prediction_stats.py:14-62 | Three tasks: success at rank 1, success only at rank 2, no success. This gives top1 = top2 = 1/3, top3 = 0/3, any = 2/3, and first successes at ranks 1, 2, 3 of 1/3, 1/3 and 0/3. |
| PredictionStats.OverlapStats | prediction_stats.py:51-62 | Fails iff a prediction or outcome column is absent, with the first absent one (predictions, then outcomes) as the key. Otherwise every fraction has the row count as denominator. |
| PredictionStats.OverlapPartition | prediction_stats.py:53-55 | The three first-success conditions are pairwise exclusive. Their counts add up to `any_correct`, and `correct_in_top1_only` equals `top1_correct`. |
| PredictionStats.StatsFor | prediction_stats.py:28-47 | Each appended row has `count` = rows holding the label in some slot and `correct` = rows where such a slot says "yes", with 1 ≤ count and correct ≤ count. A label gets a row iff it is in the universe and some row predicts it. |
| PredictionStats.StatsForAscending | prediction_stats.py:28 | Skipping labels keeps the rows in ascending label order. |
| PredictionStats.AbstractionWise | prediction_stats.py:24-49 | The loop then the sort yields the specified table, and the same `KeyError` (first absent prediction column, then first absent outcome column) whenever the specification fails. |
| PredictionStats.ProducedAscending | prediction_stats.py:26-28 | Before the sort, the rows come in strictly ascending label order. |
| PredictionStats.AbstractionWiseRows | prediction_stats.py:29-48 | The table is a permutation of the produced rows, ordered by accuracy then count, both descending. Each row carries the meaning of `count` and `correct` and the bounds 1 ≤ count, correct ≤ count. |
| PredictionStats.AbstractionWiseLabels | prediction_stats.py:26-35 | A label has a row iff some row predicts it, so a label seen only as `solved` is omitted. |
| PredictionStats.AbstractionWiseDistinct | prediction_stats.py:26-48 | No label has two rows. |
| PredictionStats.AbstractionWiseNonEmpty | prediction_stats.py:24-49 | With the six prediction and outcome columns present, the corrected operation (`AbstractionWiseSpec`) never fails, and its table is non-empty iff some row holds a prediction. The code as written raises `KeyError('accuracy')` instead of giving the empty table (see Findings). |
| PredictionStats.AbstractionWiseEmptyRaises | prediction_stats.py:48 | A sheet with every column whose prediction and `solved` cells are all empty, no rows included: the code as written raises `KeyError('accuracy')`, while the corrected operation gives the empty table. |
| PredictionStats.AbstractionWiseCorrection | prediction_stats.py:48 | The code as written differs from the corrected operation exactly when the latter yields the empty table. |
| PredictionStats.HeadOfSorted | prediction_stats.py:74 | `head(n)` of a most-frequent-first table with distinct pairs keeps order and distinctness. Every row cut off counts no more than any row kept. |
| PredictionStats.HeadOfValueCounts | prediction_stats.py:74 | The summary holds at most `top_k` rows, in non-increasing count order, each pair once with its number of occurrences. A pair left out occurs no more often than any pair shown. |
| PredictionStats.ConfusionSummary | prediction_stats.py:64-75 | The result is `head(top_k)` of the value counts of the misprediction tally. An empty tally gives the empty table. |
| Confusion.CollectMispredictions | confusion_heatmap.py:13-20 | The nested loop emits one (predicted, solved) pair per slot whose outcome is exactly "no", rows in order and slots in rank order. `confusion_summary` (prediction_stats.py:66-70) runs the same loop. |
| Confusion.MispredictionsAppend | prediction_stats.py:67-70 | Tallying two blocks of rows is tallying the first, then the second. |
| Confusion.MispredictionsCount | confusion_heatmap.py:15-19 | The tally has one pair per (row, rank) whose outcome is "no", so at most three per row. |
| Confusion.MissingOutcomeColumnAllMispredicted | confusion_heatmap.py:18 | Without an outcome column, every slot of that rank is a misprediction. |
| Confusion.UnrecognisedOutcomeIsNeither | prediction_stats.py:69 | An outcome neither "yes" nor "no" counts neither as a success nor as a misprediction. |
| Confusion.CountDistinct | confusion_heatmap.py:24 | Each distinct pair of the known tally appears once, with its number of occurrences. |
| Confusion.ValueCounts | confusion_heatmap.py:24 | `value_counts()` is most frequent first, one row per pair with both labels present, each with its multiplicity (≥ 1). Every such pair of the tally has a row. |
| Confusion.ValueCountsEmpty | prediction_stats.py:72-74 | A tally with no pair whose labels are both present gives no row. |
| Confusion.ValueCountsTotal | confusion_heatmap.py:24 | The counts add up to the number of tallied pairs with both labels present. |
| Heatmap.LookupValueCounts | confusion_heatmap.py:24-25 | Looking a pair up in the counted table gives its number of occurrences, and 0 (`fillna(0)`) for a pair that never occurs. |
| Heatmap.ConfusionMatrixAxes | confusion_heatmap.py:25 | Rows are the solved labels and columns the predicted labels of the known pairs, each once, ascending. |
| Heatmap.ConfusionMatrixCell | confusion_heatmap.py:24-25 | Cell (solved s, predicted p) is the number of times (p, s) was tallied, and 0 for a combination that never occurs. |
| Heatmap.ConfusionMatrixTotal | confusion_heatmap.py:24-25 | The cells of the matrix add up to the number of tallied pairs with both labels present. |
| CrossCheck.TaskId | build_llm_cross_check_report.py:23 | A `.json` name is the optional "solutions_" prefix, then the task id, then ".json". |
| CrossCheck.TaskIdOfPrefixedName | build_llm_cross_check_report.py:20-23 | "solutions_" + id + ".json" gives the task id `id`. |
| CrossCheck.TaskIdOfPlainName | build_llm_cross_check_report.py:20-23 | A `.json` name without the prefix gives the name minus ".json". |
| CrossCheck.JsonIdsMembers | build_llm_cross_check_report.py:19-23 | A folder contributes exactly the task ids of its `.json` names; other names are skipped. |
| CrossCheck.Record | build_llm_cross_check_report.py:24-25 | Recording a verdict: the task gains an entry, the label gets the mark, and the task's other labels keep their value (or "No" when the task is new). Every other task is unchanged. |
| CrossCheck.RecordFolder | build_llm_cross_check_report.py:19-25 | After one folder, the table has gained exactly its task ids. Each of them holds the folder's mark under the label over its earlier entry; every other entry is unchanged; the insertion order stays duplicate-free. |
| CrossCheck.BuildTable | build_llm_cross_check_report.py:11-25 | The keys are exactly the ids seen in some folder, and a missing folder contributes nothing. A label is "Yes" iff the task is in that label's `correct/` and not in its `incorrect/`: last write wins, so a task in both ends "No", and a label never observed stays "No". |
| CrossCheck.Report | build_llm_cross_check_report.py:27-32 | One row per task id of the table, ids strictly ascending, each row carrying that task's three marks. |
| CrossCheck.CrossCheckReport | build_llm_cross_check_report.py:11-32 | The report has one row per task id seen, ascending, and a label is "Yes" iff the task is listed in that label's `correct/` and not its `incorrect/`. |

## Left out

- Reading the Excel sheet, writing the CSV/XLSX artifacts, console output, `argparse` and the `main` functions are I/O. A sheet is an input value, and listing a directory is a map from folder to file names.
- The seaborn/matplotlib drawing of the heatmap is a foreign graphics library; only the count matrix it draws is modelled.
- `format_pct` and floating-point `.mean()`/division are left out. Fractions are exact `Ratio`s; the NaN of an empty sheet is a zero denominator, left unevaluated.
- PredictionStats.AbstractionWiseRows: the sort key is the exact rational accuracy, so two accuracies that floating point would round to the same value are not modelled as ties.
- PredictionStats.AbstractionWise: pandas promises no order among ties, neither for `value_counts` nor for `sort_values`. The model sorts stably, and the method contracts of `AbstractionWise` and `ConfusionSummary` fix that stable order. That order also decides which tied pairs `head(top_k)` keeps. Only `AbstractionWiseRows` and `HeadOfValueCounts` state properties that hold whatever the tie order.
- An empty prediction or `solved` cell is `None`, so it is never a label. A tallied pair holding one is dropped by `value_counts`, as pandas drops NaN. NaN outcome cells become the text "nan" on loading, which the model's text cells already cover. Python's `sorted(set(...))` may refuse to compare a NaN with text labels (a `TypeError`); that failure is not modelled, and the model skips empty cells there instead.
- Non-text labels such as numbers are not modelled; every label is text.
- Strings.Lower: lower-cases only the Latin-1 upper-case letters, not the full Unicode case mapping of `str.lower()`. Whitespace follows `str.isspace()`.
- Only the first missing column is modelled as the key of a `KeyError`, not the exception's message text.
- `DataFrame` column names and dtypes of the outputs are left out. For example, the empty `confusion_summary` frame carries the headers predicted, solved, count; that is represented only as the empty row sequence.
- Dictionary insertion order of the cross-check table is kept as a duplicate-free sequence, but the report is sorted by `task_id`, so no contract depends on it.
- run_llm_predictions.py, main.py, run_correct_subset.py, run_subset_single.py and run_subset_tasks.py are not part of this model. They cover HTTP calls, the solver wrapper and file plumbing.

## Findings

| source | as written | input that shows it | evidently intended | confidence | as-written member | corrected member |
|---|---|---|---|---|---|---|
| prediction_stats.py:48 | when no label row was appended, the frame built from the empty row list has no columns, so sorting it by accuracy and count raises `KeyError('accuracy')` | a sheet with all seven columns and no rows, or whose prediction and `solved` cells are all empty | an empty table, which the caller at prediction_stats.py:104-107 handles with "No abstraction-wise stats available." | high; not executed | PredictionStats.AbstractionWiseAsWritten | PredictionStats.AbstractionWiseSpec |
