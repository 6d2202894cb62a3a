/** The cross-check report: for each abstraction label, a `correct/` and an
    `incorrect/` folder of solution files are scanned, and every task id seen
    gets a Yes/No verdict per abstraction. Folders are given as their listings; a
    folder that does not exist is absent from the map. */
module CrossCheck {
  import opened Common
  import opened Strings
  import opened Sorting

  /** The three labels, in the order they are scanned and reported. */
  datatype Label = Nbccg | Na | Ccgbr

  const LabelOrder: seq<Label> := [Nbccg, Na, Ccgbr]

  function LabelIndex(l: Label): (k: nat)
    ensures k < 3 && LabelOrder[k] == l
  {
    match l
    case Nbccg => 0
    case Na => 1
    case Ccgbr => 2
  }

  datatype Verdict = Correct | Incorrect

  datatype Mark = Yes | No

  /** `solutions/llm_cross_check_solutions_<label>/<verdict>`. */
  datatype Folder = Folder(abstraction: Label, verdict: Verdict)

  /** The directory listing of each folder that exists. */
  type Listings = map<Folder, seq<string>>

  /** A task's verdicts, one per label (the inner dict, whose keys are
      always the three labels). */
  datatype Entry = Entry(nbccg: Mark, na: Mark, ccgbr: Mark) {
    function At(l: Label): Mark {
      match l
      case Nbccg => nbccg
      case Na => na
      case Ccgbr => ccgbr
    }

    /** `entry[l] = m`. */
    function With(l: Label, m: Mark): (e: Entry)
      ensures e.At(l) == m && forall l' :: l' != l ==> e.At(l') == At(l')
    {
      match l
      case Nbccg => this.(nbccg := m)
      case Na => this.(na := m)
      case Ccgbr => this.(ccgbr := m)
    }
  }

  type Table = map<string, Entry>

  /** The default a task id gets the first time it is seen. */
  const AllNo: Entry := Entry(No, No, No)

  // ---------------------------------------------------------------------
  // File names

  /** `fname.removeprefix("solutions_").removesuffix(".json")`. */
  function TaskId(fname: string): (id: string)
    ensures HasSuffix(fname, ".json")
            ==> fname == (if HasPrefix(fname, "solutions_") then "solutions_" else "") + id + ".json"
  {
    var id := RemoveSuffix(RemovePrefix(fname, "solutions_"), ".json");
    if HasSuffix(fname, ".json") && HasPrefix(fname, "solutions_") then
      PrefixThenSuffix(fname);
      id
    else
      id
  }

  /** A `.json` name never ends inside the "solutions_" prefix, so after the
      prefix is removed the suffix is still there. */
  lemma PrefixThenSuffix(fname: string)
    requires HasSuffix(fname, ".json") && HasPrefix(fname, "solutions_")
    ensures HasSuffix(fname[10..], ".json")
  {
    var k := |fname| - 5;
    assert fname[k..][0] == fname[k];
    assert fname[10..][|fname[10..]| - 5..] == fname[k..];
  }

  /** The task id of a solution file named after it, with the prefix ... */
  lemma TaskIdOfPrefixedName(id: string)
    ensures TaskId("solutions_" + id + ".json") == id
  {
    var fname := "solutions_" + id + ".json";
    assert fname[..10] == "solutions_";
    assert fname[10..] == id + ".json";
    assert (id + ".json")[|id|..] == ".json";
  }

  /** ... or without it. */
  lemma TaskIdOfPlainName(id: string)
    requires !HasPrefix(id + ".json", "solutions_")
    ensures TaskId(id + ".json") == id
  {
    assert (id + ".json")[|id|..] == ".json";
  }

  /** The task ids of the `.json` names of a listing. */
  function JsonIds(names: seq<string>): set<string> {
    if names == [] then {}
    else
      var last := names[|names| - 1];
      JsonIds(names[..|names| - 1]) + (if HasSuffix(last, ".json") then {TaskId(last)} else {})
  }

  lemma {:induction false} JsonIdsMembers(names: seq<string>, id: string)
    ensures id in JsonIds(names) <==> exists f :: f in names && HasSuffix(f, ".json") && TaskId(f) == id
  {
    if names != [] {
      var init := names[..|names| - 1];
      assert names == init + [names[|names| - 1]];
      JsonIdsMembers(init, id);
    }
  }

  /** The ids a folder contributes; none when it does not exist. */
  function FolderIds(listings: Listings, fo: Folder): set<string> {
    if fo in listings then JsonIds(listings[fo]) else {}
  }

  // ---------------------------------------------------------------------
  // One update of the table

  /** `table.setdefault(task_id, {k: "No" for k in AB_FOLDERS})`. */
  function EntryOf(table: Table, id: string): Entry {
    if id in table then table[id] else AllNo
  }

  /** `table[task_id][abstraction] = mark`, after the `setdefault`: the
      task gains the mark, a new task's other labels are "No", and nothing
      else changes. */
  function Record(table: Table, id: string, abstraction: Label, mark: Mark): (t: Table)
    ensures t.Keys == table.Keys + {id}
    ensures t[id].At(abstraction) == mark
    ensures forall l :: l != abstraction ==> t[id].At(l) == if id in table then table[id].At(l) else No
    ensures forall other :: other in table && other != id ==> t[other] == table[other]
  {
    table[id := EntryOf(table, id).With(abstraction, mark)]
  }

  // ---------------------------------------------------------------------
  // The scan

  /** The update a file name makes: a `.json` name records the mark under
      its task id, any other name is skipped. */
  function RecordName(table: Table, fname: string, abstraction: Label, mark: Mark): Table {
    if HasSuffix(fname, ".json") then Record(table, TaskId(fname), abstraction, mark) else table
  }

  /** `t` is `table` after recording the mark for every id of `ids`. */
  ghost predicate RecordedAll(table: Table, ids: set<string>, t: Table, abstraction: Label, mark: Mark) {
    && t.Keys == table.Keys + ids
    && (forall id :: id in t && id !in ids ==> t[id] == table[id])
    && (forall id :: id in ids ==> t[id] == EntryOf(table, id).With(abstraction, mark))
  }

  /** What the first `j` names of a folder have done to `table`. */
  ghost predicate RecordedUpTo(table: Table, names: seq<string>, j: nat, t: Table, abstraction: Label, mark: Mark)
    requires j <= |names|
  {
    RecordedAll(table, JsonIds(names[..j]), t, abstraction, mark)
  }

  /** Recording one more id; recording an id twice is the same as once. */
  lemma RecordOneMore(table: Table, ids: set<string>, t: Table, id: string, abstraction: Label, mark: Mark)
    requires RecordedAll(table, ids, t, abstraction, mark)
    ensures RecordedAll(table, ids + {id}, Record(t, id, abstraction, mark), abstraction, mark)
  {
    var t' := Record(t, id, abstraction, mark);
    if id in ids {
      assert t'[id] == EntryOf(table, id).With(abstraction, mark);
    } else if id in t {
      assert t'[id] == EntryOf(table, id).With(abstraction, mark);
    } else {
      assert id !in table;
    }
  }

  lemma JsonIdsSnoc(names: seq<string>, j: nat)
    requires j < |names|
    ensures JsonIds(names[..j + 1])
            == JsonIds(names[..j]) + (if HasSuffix(names[j], ".json") then {TaskId(names[j])} else {})
  {
    assert names[..j + 1][..j] == names[..j];
    assert names[..j + 1][j] == names[j];
  }

  lemma RecordNameStep(table: Table, names: seq<string>, j: nat, t: Table, abstraction: Label, mark: Mark)
    requires j < |names| && RecordedUpTo(table, names, j, t, abstraction, mark)
    ensures RecordedUpTo(table, names, j + 1, RecordName(t, names[j], abstraction, mark), abstraction, mark)
  {
    JsonIdsSnoc(names, j);
    if HasSuffix(names[j], ".json") {
      RecordOneMore(table, JsonIds(names[..j]), t, TaskId(names[j]), abstraction, mark);
    } else {
      assert JsonIds(names[..j + 1]) == JsonIds(names[..j]);
    }
  }

  /** The innermost loop: every `.json` name of one folder records `mark`
      under `abstraction` for its task id. */
  method RecordFolder(order: seq<string>, table: Table, names: seq<string>, abstraction: Label, mark: Mark)
    returns (order': seq<string>, table': Table)
    requires Distinct(order) && forall id :: id in order <==> id in table
    ensures Distinct(order') && forall id :: id in order' <==> id in table'
    ensures table'.Keys == table.Keys + JsonIds(names)
    ensures forall id :: id in table' && id !in JsonIds(names) ==> table'[id] == table[id]
    ensures forall id :: id in JsonIds(names) ==> table'[id] == EntryOf(table, id).With(abstraction, mark)
  {
    order', table' := order, table;
    assert names[..0] == [];
    for j := 0 to |names|
      invariant Distinct(order') && forall id :: id in order' <==> id in table'
      invariant RecordedUpTo(table, names, j, table', abstraction, mark)
    {
      var fname := names[j];
      RecordNameStep(table, names, j, table', abstraction, mark);
      if HasSuffix(fname, ".json") {
        var id := TaskId(fname);
        if id !in table' {
          order' := order' + [id];
        }
        table' := Record(table', id, abstraction, mark);
      }
    }
    assert names[..|names|] == names;
  }

  /** The ids of the folders of the first `n` labels. */
  function IdsUpTo(listings: Listings, n: nat): set<string>
    requires n <= 3
  {
    if n == 0 then {}
    else IdsUpTo(listings, n - 1)
         + FolderIds(listings, Folder(LabelOrder[n - 1], Correct))
         + FolderIds(listings, Folder(LabelOrder[n - 1], Incorrect))
  }

  /** The ids of the first `vi` verdict folders of one abstraction. */
  function VerdictIds(listings: Listings, abstraction: Label, vi: nat): set<string> {
    (if vi >= 1 then FolderIds(listings, Folder(abstraction, Correct)) else {})
    + (if vi >= 2 then FolderIds(listings, Folder(abstraction, Incorrect)) else {})
  }

  /** Every id seen in any folder. */
  function AllIds(listings: Listings): set<string> {
    IdsUpTo(listings, 3)
  }

  lemma {:induction false} IdsUpToCovers(listings: Listings, n: nat, k: nat, v: Verdict)
    requires k < n <= 3
    ensures FolderIds(listings, Folder(LabelOrder[k], v)) <= IdsUpTo(listings, n)
  {
    if k < n - 1 {
      IdsUpToCovers(listings, n - 1, k, v);
    }
  }

  /** A label's mark after its first `vi` verdict folders were scanned. */
  function Partial(listings: Listings, abstraction: Label, id: string, vi: nat): Mark {
    if vi >= 2 && id in FolderIds(listings, Folder(abstraction, Incorrect)) then No
    else if vi >= 1 && id in FolderIds(listings, Folder(abstraction, Correct)) then Yes
    else No
  }

  /** The mark of the `k`-th abstraction once labels before `li` are done and
      `vi` folders of abstraction `li` are. */
  function MarkAt(listings: Listings, id: string, k: nat, li: nat, vi: nat): Mark
    requires k < 3
  {
    if k < li then Partial(listings, LabelOrder[k], id, 2)
    else if k == li then Partial(listings, LabelOrder[k], id, vi)
    else No
  }

  ghost predicate Scanned(listings: Listings, order: seq<string>, table: Table, li: nat, vi: nat)
    requires li <= 3
  {
    && Distinct(order) && (forall id :: id in order <==> id in table)
    && (li < 3 ==> table.Keys == IdsUpTo(listings, li) + VerdictIds(listings, LabelOrder[li], vi))
    && (li == 3 ==> table.Keys == IdsUpTo(listings, 3))
    && (forall id, k :: id in table && 0 <= k < 3 ==> table[id].At(LabelOrder[k]) == MarkAt(listings, id, k, li, vi))
  }

  /** One task's mark for the `k`-th label after folder `vi` of label `li`
      recorded `mark` for the ids in `seen`. */
  lemma ScanStepMark(listings: Listings, li: nat, vi: nat, k: nat, id: string,
                     before: Option<Entry>, after: Entry, seen: set<string>)
    requires li < 3 && vi < 2 && k < 3
    requires seen == FolderIds(listings, Folder(LabelOrder[li], if vi == 0 then Correct else Incorrect))
    requires before.Some? ==> before.value.At(LabelOrder[k]) == MarkAt(listings, id, k, li, vi)
    requires before.None? ==> id !in IdsUpTo(listings, li) + VerdictIds(listings, LabelOrder[li], vi)
    requires before.None? ==> id in seen
    requires id !in seen ==> before.Some? && after == before.value
    requires id in seen ==>
               after == (if before.Some? then before.value else AllNo).With(LabelOrder[li], if vi == 0 then Yes else No)
    ensures after.At(LabelOrder[k]) == MarkAt(listings, id, k, li, vi + 1)
  {
    if before.None? && k < li {
      IdsUpToCovers(listings, li, k, Correct);
      IdsUpToCovers(listings, li, k, Incorrect);
    }
  }

  /** Scanning verdict folder `vi` of label `li` advances the scan. */
  lemma ScanStep(listings: Listings, order: seq<string>, table: Table, li: nat, vi: nat,
                 order': seq<string>, table': Table, names: seq<string>)
    requires li < 3 && vi < 2 && Scanned(listings, order, table, li, vi)
    requires var fo := Folder(LabelOrder[li], if vi == 0 then Correct else Incorrect);
             names == (if fo in listings then listings[fo] else [])
    requires Distinct(order') && forall id :: id in order' <==> id in table'
    requires table'.Keys == table.Keys + JsonIds(names)
    requires forall id :: id in table' && id !in JsonIds(names) ==> table'[id] == table[id]
    requires forall id :: id in JsonIds(names) ==>
               table'[id] == EntryOf(table, id).With(LabelOrder[li], if vi == 0 then Yes else No)
    ensures Scanned(listings, order', table', li, vi + 1)
  {
    var fo := Folder(LabelOrder[li], if vi == 0 then Correct else Incorrect);
    assert JsonIds(names) == FolderIds(listings, fo) by {
      if fo !in listings {
        assert names == [];
      }
    }
    forall id, k | id in table' && 0 <= k < 3
      ensures table'[id].At(LabelOrder[k]) == MarkAt(listings, id, k, li, vi + 1)
    {
      var before := if id in table then Some(table[id]) else None;
      ScanStepMark(listings, li, vi, k, id, before, table'[id], JsonIds(names));
    }
  }

  /** Both folders of label `li` done is label `li + 1` not yet started. */
  lemma ScanNextLabel(listings: Listings, order: seq<string>, table: Table, li: nat)
    requires li < 3 && Scanned(listings, order, table, li, 2)
    ensures Scanned(listings, order, table, li + 1, 0)
  {
  }

  /** After the last label every mark is final. */
  lemma ScanDone(listings: Listings, order: seq<string>, table: Table)
    requires Scanned(listings, order, table, 3, 0)
    ensures table.Keys == AllIds(listings)
    ensures forall id, l :: id in table ==>
              (table[id].At(l) == Yes
               <==> id in FolderIds(listings, Folder(l, Correct)) && id !in FolderIds(listings, Folder(l, Incorrect)))
  {
    forall id, l | id in table
      ensures table[id].At(l) == Yes
              <==> id in FolderIds(listings, Folder(l, Correct)) && id !in FolderIds(listings, Folder(l, Incorrect))
    {
      var k := LabelIndex(l);
      assert table[id].At(LabelOrder[k]) == MarkAt(listings, id, k, 3, 0);
    }
  }

  /** The module-level loops: labels in order, `correct/` before
      `incorrect/`, names in listing order. The last write wins: a task listed
      under both folders of a label ends as "No", without an error. */
  method BuildTable(listings: Listings) returns (order: seq<string>, table: Table)
    ensures Distinct(order) && forall id :: id in order <==> id in table
    ensures table.Keys == AllIds(listings)
    ensures forall id, l :: id in table ==>
              (table[id].At(l) == Yes
               <==> id in FolderIds(listings, Folder(l, Correct)) && id !in FolderIds(listings, Folder(l, Incorrect)))
  {
    order, table := [], map[];
    assert Scanned(listings, order, table, 0, 0);
    for li := 0 to 3
      invariant Scanned(listings, order, table, li, 0)
    {
      var abstraction := LabelOrder[li];
      for vi := 0 to 2
        invariant Scanned(listings, order, table, li, vi)
      {
        var verdict := [Correct, Incorrect][vi];
        var folder := Folder(abstraction, verdict);
        var names: seq<string> := [];
        if folder in listings {
          names := listings[folder];
        }
        var order', table' := RecordFolder(order, table, names, abstraction, if verdict == Correct then Yes else No);
        ScanStep(listings, order, table, li, vi, order', table', names);
        order, table := order', table';
      }
      ScanNextLabel(listings, order, table, li);
    }
    ScanDone(listings, order, table);
  }

  // ---------------------------------------------------------------------
  // The report

  /** A row of the report: `task_id`, then the task's verdict per
      abstraction, in the columns nbccg, na, ccgbr. */
  datatype ReportRow = ReportRow(taskId: string, marks: Entry)

  function TaskIds(rows: seq<ReportRow>): (ids: seq<string>)
    ensures |ids| == |rows| && forall i :: 0 <= i < |rows| ==> ids[i] == rows[i].taskId
  {
    seq(|rows|, i requires 0 <= i < |rows| => rows[i].taskId)
  }

  /** `DataFrame.from_dict(table, orient="index")` with the index as column
      `task_id`, sorted by `task_id`: one row per task id, ascending, each
      with that task's verdicts. */
  function Report(order: seq<string>, table: Table): (rows: seq<ReportRow>)
    requires forall id :: id in order ==> id in table
    ensures StrictlyAscending(TaskIds(rows))
    ensures forall id :: id in TaskIds(rows) <==> id in order
    ensures forall row :: row in rows ==>
              row.taskId in table && row.marks == table[row.taskId]
  {
    var ids := SortedDistinct(order);
    var rows := seq(|ids|, i requires 0 <= i < |ids| =>
                      ReportRow(ids[i], table[ids[i]]));
    assert TaskIds(rows) == ids;
    rows
  }

  /** The report of the scan has a row exactly for each task id seen in some
      folder, and an abstraction is "Yes" exactly when its `correct/` folder lists
      the task and its `incorrect/` folder does not. */
  method CrossCheckReport(listings: Listings) returns (rows: seq<ReportRow>)
    ensures StrictlyAscending(TaskIds(rows))
    ensures forall id :: id in TaskIds(rows) <==> id in AllIds(listings)
    ensures forall row, l :: row in rows ==>
              (row.marks.At(l) == Yes
               <==> row.taskId in FolderIds(listings, Folder(l, Correct))
                    && row.taskId !in FolderIds(listings, Folder(l, Incorrect)))
  {
    var order, table := BuildTable(listings);
    rows := Report(order, table);
    ReportOfScan(listings, order, table);
  }

  lemma ReportOfScan(listings: Listings, order: seq<string>, table: Table)
    requires forall id :: id in order <==> id in table
    requires table.Keys == AllIds(listings)
    requires forall id, l :: id in table ==>
               (table[id].At(l) == Yes
                <==> id in FolderIds(listings, Folder(l, Correct)) && id !in FolderIds(listings, Folder(l, Incorrect)))
    ensures var rows := Report(order, table);
            && (forall id :: id in TaskIds(rows) <==> id in AllIds(listings))
            && (forall row, l :: row in rows ==>
                  (row.marks.At(l) == Yes
                   <==> row.taskId in FolderIds(listings, Folder(l, Correct))
                        && row.taskId !in FolderIds(listings, Folder(l, Incorrect))))
  {
    var rows := Report(order, table);
    forall id ensures id in TaskIds(rows) <==> id in AllIds(listings) {
      assert id in AllIds(listings) <==> id in table;
    }
    forall row, l | row in rows
      ensures row.marks.At(l) == Yes
              <==> row.taskId in FolderIds(listings, Folder(l, Correct))
                   && row.taskId !in FolderIds(listings, Folder(l, Incorrect))
    {
      assert row.marks == table[row.taskId];
    }
  }
}
