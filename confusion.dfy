/** The misprediction tally that `confusion_summary` and
    `build_confusion_df` build with the same nested loop, and the
    `value_counts()` of it. */
module Confusion {
  import opened Common
  import opened Counting
  import opened Sorting
  import opened Frames

  /** One tallied slot: (predicted, solved); either is `None` when its
      column is absent or its cell is empty. */
  datatype Pair = Pair(predicted: Option<string>, solved: Option<string>)

  /** A slot is a misprediction when its outcome, "no" when the column is
      absent, is exactly "no". */
  function NoAt(cols: set<Column>, k: Rank): Row -> bool {
    (r: Row) => OutcomeOr(cols, r, k) == "no"
  }

  function SlotPair(cols: set<Column>, r: Row, k: Rank): Pair {
    Pair(PredOr(cols, r, k), SolvedOr(cols, r))
  }

  /** The pairs of a row's mispredicted slots of rank below `upTo`, in rank order. */
  function RowMispredictions(cols: set<Column>, r: Row, upTo: nat): seq<Pair>
    requires upTo <= 3
  {
    if upTo == 0 then []
    else RowMispredictions(cols, r, upTo - 1)
         + (if NoAt(cols, upTo - 1)(r) then [SlotPair(cols, r, upTo - 1)] else [])
  }

  /** The tally: rows in order, and each row's slots in rank order. */
  function Mispredictions(cols: set<Column>, rows: seq<Row>): seq<Pair> {
    if rows == [] then []
    else Mispredictions(cols, rows[..|rows| - 1]) + RowMispredictions(cols, rows[|rows| - 1], 3)
  }

  /** The nested loop over rows and slots that appends a pair per "no". */
  method CollectMispredictions(f: Frame) returns (tally: seq<Pair>)
    ensures tally == Mispredictions(f.columns, f.rows)
  {
    tally := [];
    for i := 0 to |f.rows|
      invariant tally == Mispredictions(f.columns, f.rows[..i])
    {
      var r := f.rows[i];
      for k := 0 to 3
        invariant tally == Mispredictions(f.columns, f.rows[..i]) + RowMispredictions(f.columns, r, k)
      {
        if OutcomeOr(f.columns, r, k) == "no" {
          tally := tally + [SlotPair(f.columns, r, k)];
        }
      }
      assert f.rows[..i + 1][..i] == f.rows[..i];
    }
    assert f.rows[..|f.rows|] == f.rows;
  }

  /** Tallying a table in two parts tallies the first part first. */
  lemma {:induction false} MispredictionsAppend(cols: set<Column>, a: seq<Row>, b: seq<Row>)
    ensures Mispredictions(cols, a + b) == Mispredictions(cols, a) + Mispredictions(cols, b)
    decreases |b|
  {
    if b == [] {
      assert a + b == a;
    } else {
      var b' := b[..|b| - 1];
      assert (a + b)[..|a + b| - 1] == a + b';
      MispredictionsAppend(cols, a, b');
    }
  }

  lemma RowMispredictionsCount(cols: set<Column>, r: Row)
    ensures |RowMispredictions(cols, r, 3)|
            == CountWhere([r], NoAt(cols, 0)) + CountWhere([r], NoAt(cols, 1)) + CountWhere([r], NoAt(cols, 2))
  {
    assert [r][1..] == [];
    assert CountWhere([r], NoAt(cols, 0)) == if NoAt(cols, 0)(r) then 1 else 0;
    assert CountWhere([r], NoAt(cols, 1)) == if NoAt(cols, 1)(r) then 1 else 0;
    assert CountWhere([r], NoAt(cols, 2)) == if NoAt(cols, 2)(r) then 1 else 0;
    assert |RowMispredictions(cols, r, 1)| == if NoAt(cols, 0)(r) then 1 else 0;
    assert |RowMispredictions(cols, r, 2)| == |RowMispredictions(cols, r, 1)| + if NoAt(cols, 1)(r) then 1 else 0;
  }

  /** One pair per slot whose outcome is "no": the tally's size is the sum
      over ranks of the rows that failed at that rank, so at most three per row. */
  lemma {:induction false} MispredictionsCount(cols: set<Column>, rows: seq<Row>)
    ensures |Mispredictions(cols, rows)|
            == CountWhere(rows, NoAt(cols, 0)) + CountWhere(rows, NoAt(cols, 1)) + CountWhere(rows, NoAt(cols, 2))
    ensures |Mispredictions(cols, rows)| <= 3 * |rows|
    decreases |rows|
  {
    if rows != [] {
      var init, last := rows[..|rows| - 1], rows[|rows| - 1];
      MispredictionsCount(cols, init);
      assert rows == init + [last];
      CountAppend(init, [last], NoAt(cols, 0));
      CountAppend(init, [last], NoAt(cols, 1));
      CountAppend(init, [last], NoAt(cols, 2));
      RowMispredictionsCount(cols, last);
    }
  }

  /** Without an outcome column every slot of that rank is a misprediction. */
  lemma MissingOutcomeColumnAllMispredicted(cols: set<Column>, rows: seq<Row>, k: Rank)
    requires RunTest(k) !in cols
    ensures CountWhere(rows, NoAt(cols, k)) == |rows|
  {
    CountAll(rows, NoAt(cols, k));
  }

  /** An outcome that is neither "yes" nor "no" (say "maybe") counts neither
      as a success nor as a misprediction. */
  lemma UnrecognisedOutcomeIsNeither(cols: set<Column>, rows: seq<Row>, k: Rank)
    requires RunTest(k) in cols
    ensures CountWhere(rows, YesAt(k)) + CountWhere(rows, NoAt(cols, k)) <= |rows|
    ensures (exists r :: r in rows && r.outcomes[k] != "yes" && r.outcomes[k] != "no")
            ==> CountWhere(rows, YesAt(k)) + CountWhere(rows, NoAt(cols, k)) < |rows|
  {
    var either := (r: Row) => YesAt(k)(r) || NoAt(cols, k)(r);
    CountDisjointUnion(rows, either, YesAt(k), NoAt(cols, k));
    CountAll(rows, either);
  }

  // ---------------------------------------------------------------------
  // value_counts()

  /** A tallied pair with both labels present. */
  datatype LabelPair = LabelPair(predicted: string, solved: string)

  /** A row of the counted table: columns predicted, solved, count. */
  datatype CountRow = CountRow(pair: LabelPair, count: nat)

  /** The pairs `value_counts` keeps: it drops those with an absent label. */
  function Known(t: seq<Pair>): (k: seq<LabelPair>)
    ensures |k| <= |t|
    ensures forall p :: p in k <==> Pair(Some(p.predicted), Some(p.solved)) in t
  {
    if t == [] then []
    else
      assert forall x :: x in t <==> x == t[0] || x in t[1..] by {
        assert t == [t[0]] + t[1..];
      }
      (if t[0].predicted.Some? && t[0].solved.Some? then [LabelPair(t[0].predicted.value, t[0].solved.value)] else [])
      + Known(t[1..])
  }

  /** The distinct elements of `s`, in order of first occurrence. */
  function Dedup(s: seq<LabelPair>): (d: seq<LabelPair>)
    ensures Distinct(d)
    ensures forall x :: x in d <==> x in s
  {
    if s == [] then []
    else
      var d := Dedup(s[..|s| - 1]);
      assert s == s[..|s| - 1] + [s[|s| - 1]];
      if s[|s| - 1] in d then d else d + [s[|s| - 1]]
  }

  predicate MoreFrequent(a: CountRow, b: CountRow) {
    a.count >= b.count
  }

  lemma MoreFrequentTotalPreorder()
    ensures TotalPreorder(MoreFrequent)
  {
  }

  predicate DistinctPairs(vc: seq<CountRow>) {
    forall i, j :: 0 <= i < j < |vc| ==> vc[i].pair != vc[j].pair
  }

  /** Each distinct element of `known` with its number of occurrences, in
      order of first occurrence. */
  function CountDistinct(known: seq<LabelPair>): (rows: seq<CountRow>)
    ensures DistinctPairs(rows)
    ensures forall row :: row in rows ==> row.count == multiset(known)[row.pair] && row.count >= 1
    ensures forall p :: p in known <==> exists row :: row in rows && row.pair == p
  {
    var keys := Dedup(known);
    var rows := seq(|keys|, i requires 0 <= i < |keys| => CountRow(keys[i], multiset(known)[keys[i]]));
    assert forall row :: row in rows ==> row.count == multiset(known)[row.pair] && row.count >= 1 by {
      forall row | row in rows ensures row.count == multiset(known)[row.pair] && row.count >= 1 {
        var i :| 0 <= i < |rows| && rows[i] == row;
        assert keys[i] in known;
      }
    }
    assert forall p :: p in keys ==> exists row :: row in rows && row.pair == p by {
      forall p | p in keys ensures exists row :: row in rows && row.pair == p {
        var i :| 0 <= i < |keys| && keys[i] == p;
        assert rows[i] in rows;
      }
    }
    rows
  }

  /** Reordering a counted table keeps its rows' meaning. */
  lemma PermutationKeepsCounts(rows: seq<CountRow>, vc: seq<CountRow>, m: multiset<LabelPair>)
    requires multiset(rows) == multiset(vc)
    requires DistinctPairs(rows)
    requires forall row :: row in rows ==> row.count == m[row.pair] && row.count >= 1
    ensures DistinctPairs(vc)
    ensures forall row :: row in vc ==> row.count == m[row.pair] && row.count >= 1
    ensures forall row :: row in vc <==> row in rows
  {
    SameElements(rows, vc);
    assert Distinct(rows) by {
      forall i, j | 0 <= i < j < |rows| ensures rows[i] != rows[j] {
        assert rows[i].pair != rows[j].pair;
      }
    }
    DistinctPermutation(rows, vc);
    forall i, j | 0 <= i < j < |vc| ensures vc[i].pair != vc[j].pair {
      assert vc[i] in vc && vc[j] in vc;
    }
  }

  /** `value_counts()`: every distinct pair with both labels, once, with its
      number of occurrences, most frequent first. */
  function ValueCounts(t: seq<Pair>): (vc: seq<CountRow>)
    ensures SortedBy(vc, MoreFrequent)
    ensures DistinctPairs(vc)
    ensures forall row :: row in vc ==> row.count == multiset(Known(t))[row.pair] && row.count >= 1
    ensures forall p :: p in Known(t) <==> exists row :: row in vc && row.pair == p
  {
    var rows := CountDistinct(Known(t));
    var vc := SortBy(rows, MoreFrequent);
    MoreFrequentTotalPreorder();
    SortBySorted(rows, MoreFrequent);
    PermutationKeepsCounts(rows, vc, multiset(Known(t)));
    vc
  }

  /** Nothing to count gives an empty table. */
  lemma ValueCountsEmpty(t: seq<Pair>)
    requires Known(t) == []
    ensures ValueCounts(t) == []
  {
  }

  function SumCounts(vc: seq<CountRow>): nat {
    if vc == [] then 0 else vc[0].count + SumCounts(vc[1..])
  }

  function Pairs(vc: seq<CountRow>): (ps: seq<LabelPair>)
    ensures |ps| == |vc| && forall i :: 0 <= i < |vc| ==> ps[i] == vc[i].pair
  {
    seq(|vc|, i requires 0 <= i < |vc| => vc[i].pair)
  }

  lemma {:induction false} SumCountsIsSumMultiplicities(vc: seq<CountRow>, m: multiset<LabelPair>)
    requires forall row :: row in vc ==> row.count == m[row.pair]
    ensures SumCounts(vc) == SumMultiplicities(Pairs(vc), m)
  {
    if vc != [] {
      assert Pairs(vc)[1..] == Pairs(vc[1..]);
      SumCountsIsSumMultiplicities(vc[1..], m);
    }
  }

  /** The counts of `value_counts` add up to the number of pairs with both labels. */
  lemma ValueCountsTotal(t: seq<Pair>)
    ensures SumCounts(ValueCounts(t)) == |Known(t)|
  {
    var vc := ValueCounts(t);
    var m := multiset(Known(t));
    SumCountsIsSumMultiplicities(vc, m);
    forall x | x in m ensures x in Pairs(vc) {
      var row :| row in vc && row.pair == x;
      var i :| 0 <= i < |vc| && vc[i] == row;
      assert Pairs(vc)[i] == x;
    }
    SumMultiplicitiesCover(Pairs(vc), m);
  }
}
