/** The four analytics of `prediction_stats.py` over a loaded sheet: overall
    accuracy, per-label performance, first-success (overlap) statistics and
    the most common mispredictions. Every fraction is a `Ratio` whose
    denominator is the number of rows; a zero denominator is the NaN that
    pandas yields on an empty sheet. */
module PredictionStats {
  import opened Common
  import opened Strings
  import opened Counting
  import opened Sorting
  import opened Frames
  import opened Confusion

  // ---------------------------------------------------------------------
  // Row conditions (boolean masks)

  /** Some rank succeeded. */
  const AnyYes: Row -> bool :=
    (r: Row) => r.outcomes[0] == "yes" || r.outcomes[1] == "yes" || r.outcomes[2] == "yes"

  /** First success at rank 2: rank 1 failed, rank 2 succeeded. */
  const Top2Only: Row -> bool :=
    (r: Row) => r.outcomes[0] != "yes" && r.outcomes[1] == "yes"

  /** First success at rank 3: ranks 1 and 2 failed, rank 3 succeeded. */
  const Top3Only: Row -> bool :=
    (r: Row) => r.outcomes[0] != "yes" && r.outcomes[1] != "yes" && r.outcomes[2] == "yes"

  /** `nunique(axis=1) == 3`: three non-empty, pairwise different predictions
      (an empty cell is not a value, so it is never unique). */
  predicate AllUnique(p: Predictions) {
    p[0].Some? && p[1].Some? && p[2].Some? && p[0] != p[1] && p[0] != p[2] && p[1] != p[2]
  }

  const AllUniquePreds: Row -> bool := (r: Row) => AllUnique(r.preds)

  // ---------------------------------------------------------------------
  // overall_accuracy

  datatype Accuracy = Accuracy(top1: Ratio, top2: Ratio, top3: Ratio, any: Ratio)

  /** `overall_accuracy`: the share of rows that succeeded at each rank and at
      any rank. Looking up an absent outcome column raises `KeyError`. */
  function OverallAccuracy(f: Frame): (r: Result<Accuracy>)
    ensures r.Err? <==> exists c :: c in RunTestColumns && c !in f.columns
    ensures r.Err? ==> exists i :: 0 <= i < 3 && RunTestColumns[i] !in f.columns
                                   && r.error.key == ColumnName(RunTestColumns[i])
                                   && forall j :: 0 <= j < i ==> RunTestColumns[j] in f.columns
    ensures r.Ok? ==> r.value.top1.den == r.value.top2.den == r.value.top3.den == r.value.any.den == |f.rows|
  {
    match FirstMissing(f.columns, RunTestColumns)
    case Some(c) => Err(KeyError(ColumnName(c)))
    case None =>
      Ok(Accuracy(Ratio(CountWhere(f.rows, YesAt(0)), |f.rows|),
                  Ratio(CountWhere(f.rows, YesAt(1)), |f.rows|),
                  Ratio(CountWhere(f.rows, YesAt(2)), |f.rows|),
                  Ratio(CountWhere(f.rows, AnyYes), |f.rows|)))
  }

  /** `any_correct` is at least every single rank's success count and at most
      their sum. */
  lemma AnyCorrectBounds(f: Frame)
    requires OverallAccuracy(f).Ok?
    ensures var a := OverallAccuracy(f).value;
            a.top1.num <= a.any.num && a.top2.num <= a.any.num && a.top3.num <= a.any.num
            && a.any.num <= a.top1.num + a.top2.num + a.top3.num
  {
    var rows := f.rows;
    CountMono(rows, YesAt(0), AnyYes);
    CountMono(rows, YesAt(1), AnyYes);
    CountMono(rows, YesAt(2), AnyYes);
    var later := (r: Row) => YesAt(1)(r) || YesAt(2)(r);
    CountUnionBound(rows, AnyYes, YesAt(0), later);
    CountUnionBound(rows, later, YesAt(1), YesAt(2));
  }

  /** Only the exact text "yes" after loading counts as a success: a raw cell
      succeeds after `load_df` if it is "yes" in any letter case with
      whitespace around it ... */
  lemma LoadedYesFromPadded(f: Frame, i: nat, k: Rank, w1: string, v: string, w2: string)
    requires i < |f.rows| && RunTest(k) in f.columns
    requires f.rows[i].outcomes[k] == w1 + v + w2 && AllSpace(w1) && AllSpace(w2) && Lower(v) == "yes"
    ensures YesAt(k)(NormalizedFrame(f).rows[i])
  {
    NormalizedCell(f, i, k);
    NormalizeIgnoresPadding(w1, v, w2);
    NormalizeIgnoresCase(v, "yes");
  }

  /** ... and only then: every other raw cell ("y", "true", "yes!") fails. */
  lemma LoadedYesIsPadded(f: Frame, i: nat, k: Rank) returns (a: nat, b: nat)
    requires i < |f.rows| && RunTest(k) in f.columns
    requires YesAt(k)(NormalizedFrame(f).rows[i])
    ensures var raw := f.rows[i].outcomes[k];
            a <= b <= |raw| && AllSpace(raw[..a]) && AllSpace(raw[b..]) && Lower(raw[a..b]) == "yes"
  {
    NormalizedCell(f, i, k);
    a, b := NormalizedYes(f.rows[i].outcomes[k]);
  }

  // ---------------------------------------------------------------------
  // overlap_stats

  datatype Overlap = Overlap(allUniquePreds: Ratio, top1Only: Ratio, top2Only: Ratio, top3Only: Ratio)

  /** `overlap_stats`: the share of rows with three distinct predictions and
      the share of rows whose first success is at rank 1, 2 and 3. The three
      prediction columns are looked up first, then the outcome columns. */
  function OverlapStats(f: Frame): (r: Result<Overlap>)
    ensures r.Err? <==> exists c :: c in PredictedColumns + RunTestColumns && c !in f.columns
    ensures r.Err? ==> var cs := PredictedColumns + RunTestColumns;
                       exists i :: 0 <= i < |cs| && cs[i] !in f.columns && r.error.key == ColumnName(cs[i])
                                   && forall j :: 0 <= j < i ==> cs[j] in f.columns
    ensures r.Ok? ==> r.value.allUniquePreds.den == r.value.top1Only.den == r.value.top2Only.den
                      == r.value.top3Only.den == |f.rows|
  {
    match FirstMissing(f.columns, PredictedColumns + RunTestColumns)
    case Some(c) => Err(KeyError(ColumnName(c)))
    case None =>
      Ok(Overlap(Ratio(CountWhere(f.rows, AllUniquePreds), |f.rows|),
                 Ratio(CountWhere(f.rows, YesAt(0)), |f.rows|),
                 Ratio(CountWhere(f.rows, Top2Only), |f.rows|),
                 Ratio(CountWhere(f.rows, Top3Only), |f.rows|)))
  }

  /** The first-success conditions split the rows that succeeded somewhere:
      they are pairwise exclusive, `correct_in_top1_only` is `top1_correct`,
      and the three counts add up to `any_correct`. */
  lemma OverlapPartition(f: Frame)
    requires OverlapStats(f).Ok?
    ensures OverallAccuracy(f).Ok?
    ensures var o := OverlapStats(f).value;
            var a := OverallAccuracy(f).value;
            o.top1Only == a.top1
            && o.top1Only.num + o.top2Only.num + o.top3Only.num == a.any.num
    ensures forall r: Row :: !(YesAt(0)(r) && Top2Only(r)) && !(YesAt(0)(r) && Top3Only(r)) && !(Top2Only(r) && Top3Only(r))
  {
    assert forall c :: c in RunTestColumns ==> c in PredictedColumns + RunTestColumns;
    var later := (r: Row) => Top2Only(r) || Top3Only(r);
    CountDisjointUnion(f.rows, later, Top2Only, Top3Only);
    CountDisjointUnion(f.rows, AnyYes, YesAt(0), later);
  }

  /** The three-task example: task 1 succeeds at rank 1, task 2 only at rank 2,
      task 3 never. */
  lemma ThreeTaskExample(f: Frame)
    requires f.columns == {Solved, Predicted(0), Predicted(1), Predicted(2), RunTest(0), RunTest(1), RunTest(2)}
    requires |f.rows| == 3
    requires f.rows[0].outcomes == ["yes", "no", "no"]
    requires f.rows[1].outcomes == ["no", "yes", "no"]
    requires f.rows[2].outcomes == ["no", "no", "no"]
    ensures OverallAccuracy(f) == Ok(Accuracy(Ratio(1, 3), Ratio(1, 3), Ratio(0, 3), Ratio(2, 3)))
    ensures OverlapStats(f).Ok? && OverlapStats(f).value.top1Only == Ratio(1, 3)
            && OverlapStats(f).value.top2Only == Ratio(1, 3) && OverlapStats(f).value.top3Only == Ratio(0, 3)
  {
    assert "no" != "yes";
    CountThree(f.rows, YesAt(0));
    CountThree(f.rows, YesAt(1));
    CountThree(f.rows, YesAt(2));
    CountThree(f.rows, AnyYes);
    CountThree(f.rows, Top2Only);
    CountThree(f.rows, Top3Only);
  }

  // ---------------------------------------------------------------------
  // abstraction_wise

  /** A label's row of the per-label table. */
  datatype LabelStat = LabelStat(abstraction: string, count: nat, correct: nat)

  /** `correct / count` as an exact rational, the sort key; `count` is never 0
      in an emitted row. */
  function AccuracyValue(s: LabelStat): real {
    if s.count == 0 then 0.0 else s.correct as real / s.count as real
  }

  /** `sort_values(['accuracy', 'count'], ascending=[False, False])`. */
  predicate RanksAtLeast(a: LabelStat, b: LabelStat) {
    AccuracyValue(a) > AccuracyValue(b) || (AccuracyValue(a) == AccuracyValue(b) && a.count >= b.count)
  }

  lemma RanksAtLeastTotalPreorder()
    ensures TotalPreorder(RanksAtLeast)
  {
  }

  function Labels(stats: seq<LabelStat>): (ls: seq<string>)
    ensures |ls| == |stats| && forall i :: 0 <= i < |stats| ==> ls[i] == stats[i].abstraction
  {
    seq(|stats|, i requires 0 <= i < |stats| => stats[i].abstraction)
  }

  /** Row `r` holds label `l` in some prediction slot. */
  predicate Predicts(cols: set<Column>, r: Row, l: string) {
    PredOr(cols, r, 0) == Some(l) || PredOr(cols, r, 1) == Some(l) || PredOr(cols, r, 2) == Some(l)
  }

  /** The rows of `subset`: those holding the label in some slot. */
  function HasLabel(cols: set<Column>, l: string): Row -> bool {
    (r: Row) => Predicts(cols, r, l)
  }

  /** `correct_mask`: some slot holding the label succeeded. */
  function CorrectFor(cols: set<Column>, l: string): Row -> bool {
    (r: Row) =>
      (PredOr(cols, r, 0) == Some(l) && r.outcomes[0] == "yes")
      || (PredOr(cols, r, 1) == Some(l) && r.outcomes[1] == "yes")
      || (PredOr(cols, r, 2) == Some(l) && r.outcomes[2] == "yes")
  }

  /** Row `r` shows label `l` in a present prediction column or as `solved`. */
  predicate Mentions(cols: set<Column>, r: Row, l: string) {
    Predicts(cols, r, l) || SolvedOr(cols, r) == Some(l)
  }

  function RowLabels(cols: set<Column>, r: Row): (ls: seq<string>)
    ensures forall l :: l in ls <==> Mentions(cols, r, l)
  {
    (if PredOr(cols, r, 0).Some? then [PredOr(cols, r, 0).value] else [])
    + (if PredOr(cols, r, 1).Some? then [PredOr(cols, r, 1).value] else [])
    + (if PredOr(cols, r, 2).Some? then [PredOr(cols, r, 2).value] else [])
    + (if SolvedOr(cols, r).Some? then [SolvedOr(cols, r).value] else [])
  }

  /** The union of the predicted columns and `solved`, empty cells left out. */
  function CandidateLabels(cols: set<Column>, rows: seq<Row>): (ls: seq<string>)
    ensures forall l :: l in ls <==> exists r :: r in rows && Mentions(cols, r, l)
  {
    if rows == [] then []
    else
      assert forall r :: r in rows <==> r == rows[0] || r in rows[1..] by {
        assert rows == [rows[0]] + rows[1..];
      }
      RowLabels(cols, rows[0]) + CandidateLabels(cols, rows[1..])
  }

  /** The rows the loop appends for `labels`, in their order: a label whose
      subset is empty is skipped. */
  function StatsFor(cols: set<Column>, rows: seq<Row>, labels: seq<string>): (stats: seq<LabelStat>)
    ensures forall s :: s in stats ==>
              s.count == CountWhere(rows, HasLabel(cols, s.abstraction))
              && s.correct == CountWhere(rows, CorrectFor(cols, s.abstraction))
              && 1 <= s.count && s.correct <= s.count
    ensures forall l :: l in Labels(stats) <==> l in labels && CountWhere(rows, HasLabel(cols, l)) > 0
  {
    if labels == [] then []
    else
      var init, l := labels[..|labels| - 1], labels[|labels| - 1];
      assert labels == init + [l];
      var prev := StatsFor(cols, rows, init);
      var count := CountWhere(rows, HasLabel(cols, l));
      if count == 0 then prev
      else
        var s := LabelStat(l, count, CountWhere(rows, CorrectFor(cols, l)));
        CountMono(rows, CorrectFor(cols, l), HasLabel(cols, l));
        assert Labels(prev + [s]) == Labels(prev) + [l];
        prev + [s]
  }

  /** Skipping labels keeps an ascending label order. */
  lemma {:induction false} StatsForAscending(cols: set<Column>, rows: seq<Row>, labels: seq<string>)
    requires StrictlyAscending(labels)
    ensures StrictlyAscending(Labels(StatsFor(cols, rows, labels)))
    decreases |labels|
  {
    if labels != [] {
      var init, l := labels[..|labels| - 1], labels[|labels| - 1];
      assert labels == init + [l];
      var prev := StatsFor(cols, rows, init);
      StatsForAscending(cols, rows, init);
      if CountWhere(rows, HasLabel(cols, l)) > 0 {
        var s := LabelStat(l, CountWhere(rows, HasLabel(cols, l)), CountWhere(rows, CorrectFor(cols, l)));
        assert StatsFor(cols, rows, labels) == prev + [s];
        assert Labels(prev + [s]) == Labels(prev) + [l];
        forall x | x in Labels(prev) ensures LexLess(x, l) {
          var j :| 0 <= j < |init| && init[j] == x;
          assert labels[j] == x;
        }
      }
    }
  }

  /** The table before sorting: one row per label, in ascending label order. */
  function Produced(f: Frame): seq<LabelStat> {
    StatsFor(f.columns, f.rows, SortedDistinct(CandidateLabels(f.columns, f.rows)))
  }

  /** `abstraction_wise` as it is written: when no label is emitted, sorting
      the column-less frame raises `KeyError('accuracy')`. */
  function AbstractionWiseAsWritten(f: Frame): Result<seq<LabelStat>> {
    var labels := SortedDistinct(CandidateLabels(f.columns, f.rows));
    var predMissing := FirstMissing(f.columns, PredictedColumns);
    var outcomeMissing := FirstMissing(f.columns, RunTestColumns);
    if labels != [] && predMissing.Some? then Err(KeyError(ColumnName(predMissing.value)))
    else if Produced(f) != [] && outcomeMissing.Some? then Err(KeyError(ColumnName(outcomeMissing.value)))
    else if Produced(f) == [] then Err(KeyError("accuracy"))
    else Ok(SortBy(Produced(f), RanksAtLeast))
  }

  /** `abstraction_wise` with the empty case its caller expects: no emitted
      label gives an empty table. Otherwise identical. */
  function AbstractionWiseSpec(f: Frame): Result<seq<LabelStat>> {
    var labels := SortedDistinct(CandidateLabels(f.columns, f.rows));
    var predMissing := FirstMissing(f.columns, PredictedColumns);
    var outcomeMissing := FirstMissing(f.columns, RunTestColumns);
    if labels != [] && predMissing.Some? then Err(KeyError(ColumnName(predMissing.value)))
    else if Produced(f) != [] && outcomeMissing.Some? then Err(KeyError(ColumnName(outcomeMissing.value)))
    else Ok(SortBy(Produced(f), RanksAtLeast))
  }

  /** The loop over the sorted label universe, appending one row per label
      that some row predicts, then the sort. */
  method AbstractionWise(f: Frame) returns (res: Result<seq<LabelStat>>)
    ensures res == AbstractionWiseSpec(f)
  {
    var labels := SortedDistinct(CandidateLabels(f.columns, f.rows));
    var stats: seq<LabelStat> := [];
    for i := 0 to |labels|
      invariant stats == StatsFor(f.columns, f.rows, labels[..i])
      invariant i > 0 ==> FirstMissing(f.columns, PredictedColumns).None?
      invariant stats != [] ==> FirstMissing(f.columns, RunTestColumns).None?
    {
      var l := labels[i];
      assert labels[..i + 1] == labels[..i] + [l];
      var missing := FirstMissing(f.columns, PredictedColumns);
      if missing.Some? {
        return Err(KeyError(ColumnName(missing.value)));
      }
      var count := CountWhere(f.rows, HasLabel(f.columns, l));
      if count > 0 {
        missing := FirstMissing(f.columns, RunTestColumns);
        if missing.Some? {
          assert l in Labels(Produced(f));
          return Err(KeyError(ColumnName(missing.value)));
        }
        var correct := CountWhere(f.rows, CorrectFor(f.columns, l));
        stats := stats + [LabelStat(l, count, correct)];
      }
    }
    assert labels[..|labels|] == labels;
    return Ok(SortBy(stats, RanksAtLeast));
  }

  /** Before the sort the rows come in strictly ascending label order. */
  lemma ProducedAscending(f: Frame)
    ensures StrictlyAscending(Labels(Produced(f)))
  {
    StatsForAscending(f.columns, f.rows, SortedDistinct(CandidateLabels(f.columns, f.rows)));
  }

  /** The emitted table is a reordering of the produced rows, ranked by
      accuracy then count, with `count` the rows holding the label in any
      slot (once per row) and `correct` the rows where a slot holding it
      succeeded. */
  lemma AbstractionWiseRows(f: Frame)
    requires AbstractionWiseSpec(f).Ok?
    ensures var out := AbstractionWiseSpec(f).value;
            multiset(out) == multiset(Produced(f))
            && SortedBy(out, RanksAtLeast)
            && (forall s :: s in out ==>
                  s.count == CountWhere(f.rows, HasLabel(f.columns, s.abstraction))
                  && s.correct == CountWhere(f.rows, CorrectFor(f.columns, s.abstraction))
                  && 1 <= s.count && s.correct <= s.count)
  {
    var out := AbstractionWiseSpec(f).value;
    RanksAtLeastTotalPreorder();
    SortBySorted(Produced(f), RanksAtLeast);
    SameElements(out, Produced(f));
  }

  /** Reordering the rows keeps their set of labels. */
  lemma LabelsPermutation(out: seq<LabelStat>, stats: seq<LabelStat>)
    requires multiset(out) == multiset(stats)
    ensures forall l :: l in Labels(out) <==> l in Labels(stats)
  {
    SameElements(out, stats);
    forall l ensures l in Labels(out) <==> l in Labels(stats) {
      if l in Labels(out) {
        var i :| 0 <= i < |out| && out[i].abstraction == l;
        assert out[i] in stats;
        var j :| 0 <= j < |stats| && stats[j] == out[i];
        assert Labels(stats)[j] == l;
      }
      if l in Labels(stats) {
        var j :| 0 <= j < |stats| && stats[j].abstraction == l;
        assert stats[j] in out;
        var i :| 0 <= i < |out| && out[i] == stats[j];
        assert Labels(out)[i] == l;
      }
    }
  }

  /** One row for each label that some row predicts, and no other. */
  lemma AbstractionWiseLabels(f: Frame)
    requires AbstractionWiseSpec(f).Ok?
    ensures forall l :: l in Labels(AbstractionWiseSpec(f).value) <==> exists r :: r in f.rows && Predicts(f.columns, r, l)
  {
    var stats := Produced(f);
    LabelsPermutation(AbstractionWiseSpec(f).value, stats);
    forall l ensures l in Labels(stats) <==> exists r :: r in f.rows && Predicts(f.columns, r, l) {
      CountPositive(f.rows, HasLabel(f.columns, l));
      if exists r :: r in f.rows && Predicts(f.columns, r, l) {
        var r :| r in f.rows && Predicts(f.columns, r, l);
        assert Mentions(f.columns, r, l);
      }
    }
  }

  /** No label appears twice. */
  lemma AbstractionWiseDistinct(f: Frame)
    requires AbstractionWiseSpec(f).Ok?
    ensures var out := AbstractionWiseSpec(f).value;
            forall i, j :: 0 <= i < j < |out| ==> out[i].abstraction != out[j].abstraction
  {
    var out := AbstractionWiseSpec(f).value;
    ProducedAscending(f);
    forall i, j | 0 <= i < j < |out| ensures out[i].abstraction != out[j].abstraction {
      DistinctLabelsPermutation(Produced(f), out, i, j);
    }
  }

  lemma DistinctLabelsPermutation(stats: seq<LabelStat>, out: seq<LabelStat>, i: nat, j: nat)
    requires StrictlyAscending(Labels(stats)) && multiset(stats) == multiset(out)
    requires i < j < |out|
    ensures out[i].abstraction != out[j].abstraction
  {
    assert Distinct(stats) by {
      forall a, b | 0 <= a < b < |stats| ensures stats[a] != stats[b] {
        AscendingDistinct(Labels(stats), a, b);
      }
    }
    DistinctPermutation(stats, out);
    if out[i].abstraction == out[j].abstraction {
      assert out[i] in multiset(stats) && out[j] in multiset(stats);
      var a :| 0 <= a < |stats| && stats[a] == out[i];
      var b :| 0 <= b < |stats| && stats[b] == out[j];
      if a != b {
        AscendingDistinct(Labels(stats), a, b);
      }
    }
  }

  /** Row `r` holds a prediction in some slot. */
  predicate HasPrediction(r: Row) {
    r.preds[0].Some? || r.preds[1].Some? || r.preds[2].Some?
  }

  /** With every column present the table is never an error, and it is
      non-empty exactly when some row holds a prediction. */
  lemma AbstractionWiseNonEmpty(f: Frame)
    requires FirstMissing(f.columns, PredictedColumns + RunTestColumns).None?
    ensures AbstractionWiseSpec(f).Ok?
    ensures AbstractionWiseSpec(f).value != [] <==> exists r :: r in f.rows && HasPrediction(r)
  {
    assert FirstMissing(f.columns, PredictedColumns).None? && FirstMissing(f.columns, RunTestColumns).None? by {
      forall c | c in PredictedColumns ensures c in f.columns {
        assert c in PredictedColumns + RunTestColumns;
      }
      forall c | c in RunTestColumns ensures c in f.columns {
        assert c in PredictedColumns + RunTestColumns;
      }
    }
    assert AbstractionWiseSpec(f).Ok?;
    AbstractionWiseLabels(f);
    SomeLabelIffPrediction(f, AbstractionWiseSpec(f).value);
  }

  /** With the prediction columns present, a table holding exactly the
      predicted labels is empty exactly when no row holds a prediction. */
  lemma SomeLabelIffPrediction(f: Frame, out: seq<LabelStat>)
    requires Predicted(0) in f.columns && Predicted(1) in f.columns && Predicted(2) in f.columns
    requires forall l :: l in Labels(out) <==> exists r :: r in f.rows && Predicts(f.columns, r, l)
    ensures out != [] <==> exists r :: r in f.rows && HasPrediction(r)
  {
    if exists r :: r in f.rows && HasPrediction(r) {
      var r :| r in f.rows && HasPrediction(r);
      var l := if r.preds[0].Some? then r.preds[0].value
               else if r.preds[1].Some? then r.preds[1].value
               else r.preds[2].value;
      assert Predicts(f.columns, r, l);
      assert l in Labels(out);
    }
    if out != [] {
      var l := Labels(out)[0];
      assert l in Labels(out);
      var r :| r in f.rows && Predicts(f.columns, r, l);
      assert HasPrediction(r);
    }
  }

  /** The source raises where its caller expects an empty table: a sheet
      with every column whose prediction and `solved` cells are all empty
      (in particular one with no row). */
  lemma AbstractionWiseEmptyRaises(f: Frame)
    requires f.columns == {Solved, Predicted(0), Predicted(1), Predicted(2), RunTest(0), RunTest(1), RunTest(2)}
    requires forall r :: r in f.rows ==> r.solved.None? && !HasPrediction(r)
    ensures AbstractionWiseAsWritten(f) == Err(KeyError("accuracy"))
    ensures AbstractionWiseSpec(f) == Ok([])
  {
  }

  lemma AbstractionWiseCorrection(f: Frame)
    ensures AbstractionWiseAsWritten(f)
            == if AbstractionWiseSpec(f) == Ok([]) then Err(KeyError("accuracy")) else AbstractionWiseSpec(f)
  {
    var stats := Produced(f);
    assert |SortBy(stats, RanksAtLeast)| == |stats| by {
      assert |multiset(SortBy(stats, RanksAtLeast))| == |multiset(stats)|;
    }
  }

  // ---------------------------------------------------------------------
  // confusion_summary

  /** `DataFrame.head(n)`: the first `n` rows, or all but the last `-n`. */
  function Head<T>(s: seq<T>, n: int): (h: seq<T>)
    ensures n >= 0 ==> |h| == if n < |s| then n else |s|
    ensures n < 0 ==> |h| == if -n < |s| then |s| + n else 0
    ensures h == s[..|h|]
  {
    if n >= 0 then (if n < |s| then s[..n] else s)
    else if -n < |s| then s[..|s| + n] else []
  }

  /** The first rows of a table sorted most frequent first keep its order and
      its distinct pairs, and outrank every row cut off. */
  lemma HeadOfSorted(vc: seq<CountRow>, n: int)
    requires SortedBy(vc, MoreFrequent) && DistinctPairs(vc)
    ensures var out := Head(vc, n);
            && SortedBy(out, MoreFrequent)
            && DistinctPairs(out)
            && (forall row :: row in out ==> row in vc)
            && (forall row, other :: row in out && other in vc && other.pair !in Pairs(out)
                  ==> other.count <= row.count)
  {
    var out := Head(vc, n);
    assert forall i :: 0 <= i < |out| ==> out[i] == vc[i];
    forall row, other | row in out && other in vc && other.pair !in Pairs(out)
      ensures other.count <= row.count
    {
      var i :| 0 <= i < |out| && out[i] == row;
      var j :| 0 <= j < |vc| && vc[j] == other;
    }
  }

  /** The first rows of `value_counts`: at most `n` when `n` is not negative,
      most frequent first, each pair once with its number of occurrences, and
      every pair cut off occurs no more often than any pair kept. */
  lemma HeadOfValueCounts(t: seq<Pair>, n: int)
    ensures var out := Head(ValueCounts(t), n);
            && (n >= 0 ==> |out| <= n)
            && SortedBy(out, MoreFrequent)
            && DistinctPairs(out)
            && (forall row :: row in out ==> row.count == multiset(Known(t))[row.pair] && row.count >= 1)
            && (forall row, p :: row in out && p in Known(t) && p !in Pairs(out)
                  ==> multiset(Known(t))[p] <= row.count)
  {
    var vc := ValueCounts(t);
    var out := Head(vc, n);
    HeadOfSorted(vc, n);
    forall row, p | row in out && p in Known(t) && p !in Pairs(out)
      ensures multiset(Known(t))[p] <= row.count
    {
      var cr :| cr in vc && cr.pair == p;
    }
  }

  /** `confusion_summary`: the tally of mispredicted slots, counted per
      (predicted, solved) pair, most frequent first, cut to `top_k` rows; an
      empty tally gives the empty table. */
  method ConfusionSummary(f: Frame, topK: int) returns (out: seq<CountRow>)
    ensures out == Head(ValueCounts(Mispredictions(f.columns, f.rows)), topK)
    ensures Mispredictions(f.columns, f.rows) == [] ==> out == []
  {
    var tally := CollectMispredictions(f);
    if tally == [] {
      ValueCountsEmpty(tally);
      return [];
    }
    out := Head(ValueCounts(tally), topK);
  }
}
