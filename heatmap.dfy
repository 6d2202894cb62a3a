/** The count matrix behind the confusion heatmap: the misprediction tally
    counted per (predicted, solved) pair and pivoted into a grid with one row
    per solved label and one column per predicted label, both in ascending
    order, absent combinations filled with 0. */
module Heatmap {
  import opened Strings
  import opened Counting
  import opened Sorting
  import opened Confusion

  /** Row labels (`Solved`), column labels (`Predicted`) and the cells, row by row. */
  datatype Pivot = Pivot(index: seq<string>, columns: seq<string>, cells: seq<seq<nat>>)

  /** The count of pair `p` in a counted table; 0 when the table has no such
      pair (`fillna(0)`). */
  function Lookup(vc: seq<CountRow>, p: LabelPair): (n: nat)
    ensures (forall row :: row in vc ==> row.pair != p) ==> n == 0
  {
    if vc == [] then 0
    else if vc[0].pair == p then vc[0].count
    else Lookup(vc[1..], p)
  }

  /** In a table with one row per pair, the lookup finds that row. */
  lemma {:induction false} LookupFinds(vc: seq<CountRow>, p: LabelPair, i: nat)
    requires DistinctPairs(vc) && i < |vc| && vc[i].pair == p
    ensures Lookup(vc, p) == vc[i].count
  {
    if i > 0 {
      assert vc[0].pair != p;
      LookupFinds(vc[1..], p, i - 1);
    }
  }

  function SolvedLabels(vc: seq<CountRow>): (ls: seq<string>)
    ensures |ls| == |vc| && forall i :: 0 <= i < |vc| ==> ls[i] == vc[i].pair.solved
  {
    seq(|vc|, i requires 0 <= i < |vc| => vc[i].pair.solved)
  }

  function PredictedLabels(vc: seq<CountRow>): (ls: seq<string>)
    ensures |ls| == |vc| && forall i :: 0 <= i < |vc| ==> ls[i] == vc[i].pair.predicted
  {
    seq(|vc|, i requires 0 <= i < |vc| => vc[i].pair.predicted)
  }

  /** `mat.pivot(index='Solved', columns='Predicted', values='Count').fillna(0)`. */
  function PivotOf(vc: seq<CountRow>): (pv: Pivot)
    ensures |pv.cells| == |pv.index|
    ensures forall i :: 0 <= i < |pv.cells| ==> |pv.cells[i]| == |pv.columns|
  {
    var index := SortedDistinct(SolvedLabels(vc));
    var columns := SortedDistinct(PredictedLabels(vc));
    Pivot(index, columns,
          seq(|index|, i requires 0 <= i < |index| =>
                seq(|columns|, j requires 0 <= j < |columns| => Lookup(vc, LabelPair(columns[j], index[i])))))
  }

  /** The matrix the heatmap draws for a tally. */
  function ConfusionMatrix(t: seq<Pair>): Pivot {
    PivotOf(ValueCounts(t))
  }

  /** The counted table answers every lookup with the pair's number of
      occurrences among the pairs with both labels. */
  lemma LookupValueCounts(t: seq<Pair>, p: LabelPair)
    ensures Lookup(ValueCounts(t), p) == multiset(Known(t))[p]
  {
    var vc := ValueCounts(t);
    if p in Known(t) {
      var row :| row in vc && row.pair == p;
      var i :| 0 <= i < |vc| && vc[i] == row;
      LookupFinds(vc, p, i);
    } else {
      assert p !in multiset(Known(t));
    }
  }

  lemma AxisLabels(vc: seq<CountRow>, known: seq<LabelPair>)
    requires forall p :: p in known <==> exists row :: row in vc && row.pair == p
    ensures forall s :: s in SolvedLabels(vc) <==> exists p :: p in known && p.solved == s
    ensures forall s :: s in PredictedLabels(vc) <==> exists p :: p in known && p.predicted == s
  {
    forall s ensures s in SolvedLabels(vc) <==> exists p :: p in known && p.solved == s {
      if s in SolvedLabels(vc) {
        var i :| 0 <= i < |vc| && SolvedLabels(vc)[i] == s;
        assert vc[i] in vc;
        assert vc[i].pair in known;
      }
      if exists p :: p in known && p.solved == s {
        var p :| p in known && p.solved == s;
        var row :| row in vc && row.pair == p;
        var i :| 0 <= i < |vc| && vc[i] == row;
        assert SolvedLabels(vc)[i] == s;
      }
    }
    forall s ensures s in PredictedLabels(vc) <==> exists p :: p in known && p.predicted == s {
      if s in PredictedLabels(vc) {
        var i :| 0 <= i < |vc| && PredictedLabels(vc)[i] == s;
        assert vc[i] in vc;
        assert vc[i].pair in known;
      }
      if exists p :: p in known && p.predicted == s {
        var p :| p in known && p.predicted == s;
        var row :| row in vc && row.pair == p;
        var i :| 0 <= i < |vc| && vc[i] == row;
        assert PredictedLabels(vc)[i] == s;
      }
    }
  }

  /** The rows are the solved labels and the columns the predicted labels of
      the pairs with both labels, each once and ascending. */
  lemma ConfusionMatrixAxes(t: seq<Pair>)
    ensures var pv := ConfusionMatrix(t);
            StrictlyAscending(pv.index) && StrictlyAscending(pv.columns)
            && (forall s :: s in pv.index <==> exists p :: p in Known(t) && p.solved == s)
            && (forall s :: s in pv.columns <==> exists p :: p in Known(t) && p.predicted == s)
  {
    AxisLabels(ValueCounts(t), Known(t));
  }

  /** Cell (solved s, predicted p) is the number of times (p, s) was tallied;
      a combination that never occurs is 0. */
  lemma ConfusionMatrixCell(t: seq<Pair>, i: nat, j: nat)
    requires i < |ConfusionMatrix(t).index| && j < |ConfusionMatrix(t).columns|
    ensures var pv := ConfusionMatrix(t);
            pv.cells[i][j] == multiset(Known(t))[LabelPair(pv.columns[j], pv.index[i])]
  {
    var pv := ConfusionMatrix(t);
    LookupValueCounts(t, LabelPair(pv.columns[j], pv.index[i]));
  }

  // ---------------------------------------------------------------------
  // The grid total

  function Sum(xs: seq<nat>): nat {
    if xs == [] then 0 else xs[0] + Sum(xs[1..])
  }

  function GridTotal(cells: seq<seq<nat>>): nat {
    if cells == [] then 0 else Sum(cells[0]) + GridTotal(cells[1..])
  }

  /** The pairs of one grid row, column by column. */
  function RowKeys(s: string, columns: seq<string>): (ks: seq<LabelPair>)
    ensures |ks| == |columns| && forall j :: 0 <= j < |columns| ==> ks[j] == LabelPair(columns[j], s)
  {
    seq(|columns|, j requires 0 <= j < |columns| => LabelPair(columns[j], s))
  }

  /** The pairs of the whole grid, row by row. */
  function GridKeys(index: seq<string>, columns: seq<string>): (ks: seq<LabelPair>)
    ensures forall k :: k in ks <==> k.solved in index && k.predicted in columns
  {
    if index == [] then []
    else
      assert forall s :: s in index <==> s == index[0] || s in index[1..] by {
        assert index == [index[0]] + index[1..];
      }
      RowKeys(index[0], columns) + GridKeys(index[1..], columns)
  }

  lemma {:induction false} GridKeysDistinct(index: seq<string>, columns: seq<string>)
    requires Distinct(index) && Distinct(columns)
    ensures Distinct(GridKeys(index, columns))
  {
    if index != [] {
      var row, rest := RowKeys(index[0], columns), GridKeys(index[1..], columns);
      GridKeysDistinct(index[1..], columns);
      assert index[0] !in index[1..] by {
        forall k | 0 <= k < |index[1..]| ensures index[1..][k] != index[0] {
          assert index[1..][k] == index[k + 1];
        }
      }
      forall a, b | 0 <= a < b < |row + rest| ensures (row + rest)[a] != (row + rest)[b] {
        if b < |row| {
          assert (row + rest)[a] == row[a] && (row + rest)[b] == row[b];
        } else if a >= |row| {
          assert (row + rest)[a] == rest[a - |row|] && (row + rest)[b] == rest[b - |row|];
        } else {
          assert (row + rest)[b] == rest[b - |row|] && rest[b - |row|] in rest;
        }
      }
    }
  }

  lemma {:induction false} SumRowKeys(xs: seq<nat>, keys: seq<LabelPair>, m: multiset<LabelPair>)
    requires |xs| == |keys| && forall j :: 0 <= j < |xs| ==> xs[j] == m[keys[j]]
    ensures Sum(xs) == SumMultiplicities(keys, m)
  {
    if xs != [] {
      SumRowKeys(xs[1..], keys[1..], m);
    }
  }

  lemma {:induction false} GridTotalKeys(vc: seq<CountRow>, index: seq<string>, columns: seq<string>, m: multiset<LabelPair>)
    requires forall p :: Lookup(vc, p) == m[p]
    ensures GridTotal(seq(|index|, i requires 0 <= i < |index| =>
                            seq(|columns|, j requires 0 <= j < |columns| => Lookup(vc, LabelPair(columns[j], index[i])))))
            == SumMultiplicities(GridKeys(index, columns), m)
  {
    var cells := seq(|index|, i requires 0 <= i < |index| =>
                       seq(|columns|, j requires 0 <= j < |columns| => Lookup(vc, LabelPair(columns[j], index[i]))));
    if index != [] {
      GridTotalKeys(vc, index[1..], columns, m);
      assert cells[1..] == seq(|index[1..]|, i requires 0 <= i < |index[1..]| =>
                                 seq(|columns|, j requires 0 <= j < |columns| => Lookup(vc, LabelPair(columns[j], index[1..][i]))));
      SumRowKeys(cells[0], RowKeys(index[0], columns), m);
      SumMultiplicitiesAppend(RowKeys(index[0], columns), GridKeys(index[1..], columns), m);
    }
  }

  lemma AscendingIsDistinct(s: seq<string>)
    requires StrictlyAscending(s)
    ensures Distinct(s)
  {
    forall a, b | 0 <= a < b < |s| ensures s[a] != s[b] {
      AscendingDistinct(s, a, b);
    }
  }

  lemma ConfusionMatrixCellsSum(t: seq<Pair>)
    ensures var pv := ConfusionMatrix(t);
            GridTotal(pv.cells) == SumMultiplicities(GridKeys(pv.index, pv.columns), multiset(Known(t)))
  {
    var vc := ValueCounts(t);
    forall p ensures Lookup(vc, p) == multiset(Known(t))[p] {
      LookupValueCounts(t, p);
    }
    var pv := PivotOf(vc);
    GridTotalKeys(vc, pv.index, pv.columns, multiset(Known(t)));
  }

  lemma KnownInGrid(t: seq<Pair>, x: LabelPair)
    requires x in Known(t)
    ensures x in GridKeys(ConfusionMatrix(t).index, ConfusionMatrix(t).columns)
  {
    var vc := ValueCounts(t);
    var row :| row in vc && row.pair == x;
    var i :| 0 <= i < |vc| && vc[i] == row;
    var solved, predicted := SolvedLabels(vc), PredictedLabels(vc);
    assert solved[i] == x.solved && predicted[i] == x.predicted;
    assert x.solved in solved && x.predicted in predicted;
    var index, columns := SortedDistinct(solved), SortedDistinct(predicted);
    assert x.solved in index && x.predicted in columns;
    assert ConfusionMatrix(t).index == index && ConfusionMatrix(t).columns == columns;
  }

  lemma ConfusionMatrixKeys(t: seq<Pair>)
    ensures var pv := ConfusionMatrix(t);
            var keys := GridKeys(pv.index, pv.columns);
            Distinct(keys) && forall x :: x in multiset(Known(t)) ==> x in keys
  {
    var pv := ConfusionMatrix(t);
    AscendingIsDistinct(pv.index);
    AscendingIsDistinct(pv.columns);
    GridKeysDistinct(pv.index, pv.columns);
    forall x | x in multiset(Known(t)) ensures x in GridKeys(pv.index, pv.columns) {
      KnownInGrid(t, x);
    }
  }

  /** The cells add up to the number of tallied pairs with both labels. */
  lemma ConfusionMatrixTotal(t: seq<Pair>)
    ensures GridTotal(ConfusionMatrix(t).cells) == |Known(t)|
  {
    var pv := ConfusionMatrix(t);
    ConfusionMatrixCellsSum(t);
    ConfusionMatrixKeys(t);
    SumMultiplicitiesCover(GridKeys(pv.index, pv.columns), multiset(Known(t)));
  }
}
