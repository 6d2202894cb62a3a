/** The table the analytics read: one row per task, with the ground-truth
    label `solved`, three ranked predictions `predicted_1..3` and their
    outcome cells `run_test`, `run_test.1`, `run_test.2`. Any of these
    columns may be absent from the sheet; a row's cell for an absent column
    is never consulted. */
module Frames {
  import opened Common
  import opened Strings

  /** A prediction rank: 0, 1 and 2 stand for ranks 1, 2 and 3. */
  type Rank = k: nat | k < 3

  datatype Column = Solved | Predicted(rank: Rank) | RunTest(rank: Rank)

  function ColumnName(c: Column): string {
    match c
    case Solved => "solved"
    case Predicted(k) => ["predicted_1", "predicted_2", "predicted_3"][k]
    case RunTest(k) => ["run_test", "run_test.1", "run_test.2"][k]
  }

  const PredictedColumns: seq<Column> := [Predicted(0), Predicted(1), Predicted(2)]
  const RunTestColumns: seq<Column> := [RunTest(0), RunTest(1), RunTest(2)]

  /** The three prediction cells of a row; `None` is an empty (NaN) cell. */
  type Predictions = s: seq<Option<string>> | |s| == 3 witness [None, None, None]

  /** The three outcome cells of a row, as text. */
  type Outcomes = s: seq<string> | |s| == 3 witness ["", "", ""]

  /** A task: its `solved` cell (`None` when empty), its predictions and its
      outcome texts. */
  datatype Row = Row(solved: Option<string>, preds: Predictions, outcomes: Outcomes)

  datatype Frame = Frame(columns: set<Column>, rows: seq<Row>)

  /** The first of `cs` that the frame lacks: the key of the KeyError that
      looking the columns up in this order raises. */
  function FirstMissing(cols: set<Column>, cs: seq<Column>): (m: Option<Column>)
    ensures m.None? <==> forall c :: c in cs ==> c in cols
    ensures m.Some? ==> exists i :: 0 <= i < |cs| && cs[i] == m.value && m.value !in cols
                                  && forall j :: 0 <= j < i ==> cs[j] in cols
  {
    if cs == [] then None
    else if cs[0] !in cols then Some(cs[0])
    else
      assert forall c :: c in cs <==> c == cs[0] || c in cs[1..] by {
        assert cs == [cs[0]] + cs[1..];
      }
      var m := FirstMissing(cols, cs[1..]);
      assert m.Some? ==> exists i :: 0 <= i < |cs| && cs[i] == m.value && m.value !in cols
                                   && forall j :: 0 <= j < i ==> cs[j] in cols by {
        if m.Some? {
          var i :| 0 <= i < |cs[1..]| && cs[1..][i] == m.value && m.value !in cols
                   && forall j :: 0 <= j < i ==> cs[1..][j] in cols;
          assert cs[i + 1] == m.value;
          assert forall j :: 1 <= j < i + 1 ==> cs[j] == cs[1..][j - 1];
        }
      }
      m
  }

  // ---------------------------------------------------------------------
  // Cell access with the defaults of `row.get(column, default)`

  /** `row.get(predicted_k, None)`. */
  function PredOr(cols: set<Column>, r: Row, k: Rank): Option<string> {
    if Predicted(k) in cols then r.preds[k] else None
  }

  /** `row.get(run_test_k, 'no')`. */
  function OutcomeOr(cols: set<Column>, r: Row, k: Rank): string {
    if RunTest(k) in cols then r.outcomes[k] else "no"
  }

  /** `row.get('solved', None)`. */
  function SolvedOr(cols: set<Column>, r: Row): Option<string> {
    if Solved in cols then r.solved else None
  }

  /** Success at rank `k`: the outcome cell is exactly "yes". Every other
      text, "Yes" and " yes" included, is a failure. */
  function YesAt(k: Rank): Row -> bool {
    (r: Row) => r.outcomes[k] == "yes"
  }

  // ---------------------------------------------------------------------
  // Outcome normalisation (load_df)

  /** Normalises the outcome cell of rank `k` of every row (one column
      assignment of `load_df`). */
  function NormalizeColumn(rows: seq<Row>, k: Rank): (out: seq<Row>)
    ensures |out| == |rows|
  {
    seq(|rows|, i requires 0 <= i < |rows| =>
          rows[i].(outcomes := rows[i].outcomes[k := Normalize(rows[i].outcomes[k])]))
  }

  /** A row whose outcome cells of ranks below `upTo` are normalised where
      the column is present. */
  function NormalizedRowUpTo(cols: set<Column>, r: Row, upTo: nat): Row {
    r.(outcomes := seq(3, k requires 0 <= k < 3 =>
                         if k < upTo && RunTest(k) in cols then Normalize(r.outcomes[k]) else r.outcomes[k]))
  }

  /** A row whose outcome cells in present columns are normalised. */
  function NormalizedRow(cols: set<Column>, r: Row): (n: Row)
    ensures n.solved == r.solved && n.preds == r.preds
  {
    NormalizedRowUpTo(cols, r, 3)
  }

  /** The frame `load_df` returns for a sheet read as `f`. */
  function NormalizedFrame(f: Frame): (g: Frame)
    ensures g.columns == f.columns && |g.rows| == |f.rows|
  {
    f.(rows := seq(|f.rows|, i requires 0 <= i < |f.rows| => NormalizedRow(f.columns, f.rows[i])))
  }

  lemma NormalizedRowIdempotent(cols: set<Column>, r: Row)
    ensures NormalizedRow(cols, NormalizedRow(cols, r)) == NormalizedRow(cols, r)
  {
    var n := NormalizedRow(cols, r);
    var m := NormalizedRow(cols, n);
    forall k | 0 <= k < 3 ensures m.outcomes[k] == n.outcomes[k] {
      if RunTest(k) in cols {
        NormalizeIdempotent(r.outcomes[k]);
      }
    }
    assert m.outcomes == n.outcomes;
  }

  /** Normalising an already normalised frame changes nothing. */
  lemma NormalizedFrameIdempotent(f: Frame)
    ensures NormalizedFrame(NormalizedFrame(f)) == NormalizedFrame(f)
  {
    var g := NormalizedFrame(f);
    var h := NormalizedFrame(g);
    forall i | 0 <= i < |f.rows| ensures h.rows[i] == g.rows[i] {
      NormalizedRowIdempotent(f.columns, f.rows[i]);
    }
    assert h.rows == g.rows;
  }

  lemma NormalizeColumnStep(f: Frame, k: Rank)
    ensures var before := seq(|f.rows|, i requires 0 <= i < |f.rows| => NormalizedRowUpTo(f.columns, f.rows[i], k));
            var after := seq(|f.rows|, i requires 0 <= i < |f.rows| => NormalizedRowUpTo(f.columns, f.rows[i], k + 1));
            (RunTest(k) in f.columns ==> NormalizeColumn(before, k) == after)
            && (RunTest(k) !in f.columns ==> before == after)
  {
    var before := seq(|f.rows|, i requires 0 <= i < |f.rows| => NormalizedRowUpTo(f.columns, f.rows[i], k));
    var after := seq(|f.rows|, i requires 0 <= i < |f.rows| => NormalizedRowUpTo(f.columns, f.rows[i], k + 1));
    var stepped := NormalizeColumn(before, k);
    forall i | 0 <= i < |f.rows|
      ensures RunTest(k) in f.columns ==> stepped[i] == after[i]
      ensures RunTest(k) !in f.columns ==> before[i] == after[i]
    {
      if RunTest(k) in f.columns {
        assert stepped[i].outcomes == after[i].outcomes;
      } else {
        assert before[i].outcomes == after[i].outcomes;
      }
    }
  }

  /** What `load_df` leaves in each cell: outcome cells of present columns
      lower-cased and stripped, every other cell as read. */
  lemma NormalizedCell(f: Frame, i: nat, k: Rank)
    requires i < |f.rows|
    ensures NormalizedFrame(f).rows[i].solved == f.rows[i].solved
    ensures NormalizedFrame(f).rows[i].preds == f.rows[i].preds
    ensures NormalizedFrame(f).rows[i].outcomes[k]
            == if RunTest(k) in f.columns then Normalize(f.rows[i].outcomes[k]) else f.rows[i].outcomes[k]
  {
  }

  /** The loop of `load_df`: for each outcome column, in order, that the
      sheet has, replace the column by its lower-cased, stripped text. */
  method LoadNormalize(f: Frame) returns (g: Frame)
    ensures g == NormalizedFrame(f)
  {
    g := f;
    assert g.rows == seq(|f.rows|, i requires 0 <= i < |f.rows| => NormalizedRowUpTo(f.columns, f.rows[i], 0)) by {
      forall i | 0 <= i < |f.rows| ensures NormalizedRowUpTo(f.columns, f.rows[i], 0) == f.rows[i] {
        assert NormalizedRowUpTo(f.columns, f.rows[i], 0).outcomes == f.rows[i].outcomes;
      }
    }
    for k := 0 to 3
      invariant g.columns == f.columns
      invariant g.rows == seq(|f.rows|, i requires 0 <= i < |f.rows| => NormalizedRowUpTo(f.columns, f.rows[i], k))
    {
      NormalizeColumnStep(f, k);
      if RunTest(k) in g.columns {
        g := g.(rows := NormalizeColumn(g.rows, k));
      }
    }
  }
}
