/**
 * The pandas table operations the cleaning script uses, on a value model of a
 * DataFrame: an ordered list of column labels and, per row, one cell per column.
 */
module Frames {
  import opened Wrappers
  import opened Seqs

  /** A table cell as read from the CSV; `None` is a missing value (NaN). */
  type Cell = Option<string>

  /** The exceptions that abort the script. */
  datatype Failure =
    | KeyError(column: string)    // a column looked up with `df[name]` does not exist
    | ValueError(literal: string) // `float()` was given a string it cannot parse

  /** A table: column labels, and rows of cells in column order. */
  datatype Frame = Frame(columns: seq<string>, rows: seq<seq<Cell>>)

  /** Every row has one cell per column. */
  predicate Rect(f: Frame) {
    forall r :: 0 <= r < |f.rows| ==> |f.rows[r]| == |f.columns|
  }

  /** Index of the first column labelled `name`, or `|cols|` when there is none. */
  function LabelIndex(cols: seq<string>, name: string): (i: nat)
    ensures i <= |cols| && (i < |cols| <==> name in cols)
    ensures i < |cols| ==> cols[i] == name
    ensures forall j :: 0 <= j < i ==> cols[j] != name
  {
    if cols == [] then 0
    else if cols[0] == name then 0
    else 1 + LabelIndex(cols[1..], name)
  }

  /** `df[name]` for a single name: the cells of that column, or `KeyError`. */
  function ColumnOf(f: Frame, name: string): (r: Result<seq<Cell>, Failure>)
    requires Rect(f)
    ensures r.Err? <==> name !in f.columns
    ensures r.Err? ==> r.error == KeyError(name)
    ensures r.Ok? ==> |r.value| == |f.rows|
  {
    if name in f.columns then
      var i := LabelIndex(f.columns, name);
      Ok(seq(|f.rows|, r requires 0 <= r < |f.rows| => f.rows[r][i]))
    else Err(KeyError(name))
  }

  /** `df[name] = values`: overwrite the column in place when it exists, otherwise append it. */
  function WithColumn(f: Frame, name: string, values: seq<Cell>): (g: Frame)
    requires Rect(f) && |values| == |f.rows|
    ensures Rect(g) && |g.rows| == |f.rows|
    ensures g.columns == if name in f.columns then f.columns else f.columns + [name]
  {
    if name in f.columns then
      var i := LabelIndex(f.columns, name);
      Frame(f.columns, seq(|f.rows|, r requires 0 <= r < |f.rows| => f.rows[r][i := values[r]]))
    else
      Frame(f.columns + [name], seq(|f.rows|, r requires 0 <= r < |f.rows| => f.rows[r] + [values[r]]))
  }

  /** Appending a label does not move the first occurrence of another one. */
  lemma {:induction false} LabelIndexAppend(cols: seq<string>, name: string, other: string)
    requires if other == name then name !in cols else other in cols
    ensures LabelIndex(cols + [name], other) == LabelIndex(cols, other)
  {
    if cols != [] {
      assert (cols + [name])[0] == cols[0];
      assert (cols + [name])[1..] == cols[1..] + [name];
      if cols[0] != other {
        LabelIndexAppend(cols[1..], name, other);
      }
    }
  }

  /** Reading a column back after writing it gives the written cells. */
  lemma ReadAfterWrite(f: Frame, name: string, values: seq<Cell>)
    requires Rect(f) && |values| == |f.rows|
    ensures ColumnOf(WithColumn(f, name, values), name) == Ok(values)
  {
    var g := WithColumn(f, name, values);
    var i := LabelIndex(f.columns, name);
    if name !in f.columns {
      LabelIndexAppend(f.columns, name, name);
    }
    assert LabelIndex(g.columns, name) == i;
    var a := ColumnOf(g, name).value;
    assert |a| == |values|;
    forall r | 0 <= r < |f.rows|
      ensures a[r] == values[r]
    {
      assert a[r] == g.rows[r][i];
    }
    assert a == values;
  }

  /** Writing one column leaves every other column as it was. */
  lemma WriteKeepsOthers(f: Frame, name: string, values: seq<Cell>, other: string)
    requires Rect(f) && |values| == |f.rows| && other != name
    ensures ColumnOf(WithColumn(f, name, values), other) == ColumnOf(f, other)
  {
    var g := WithColumn(f, name, values);
    if other in f.columns {
      var i := LabelIndex(f.columns, other);
      if name !in f.columns {
        LabelIndexAppend(f.columns, name, other);
      }
      assert LabelIndex(g.columns, other) == i;
      var a := ColumnOf(g, other).value;
      var b := ColumnOf(f, other).value;
      assert |a| == |b|;
      forall r | 0 <= r < |f.rows|
        ensures a[r] == b[r]
      {
        CellKept(f, name, values, r, i);
      }
      assert a == b;
    }
  }

  /** One cell off the written column, before and after the write. */
  lemma CellKept(f: Frame, name: string, values: seq<Cell>, r: nat, i: nat)
    requires Rect(f) && |values| == |f.rows| && r < |f.rows| && i < |f.columns| && f.columns[i] != name
    ensures WithColumn(f, name, values).rows[r][i] == f.rows[r][i]
  {
    if name in f.columns {
      assert LabelIndex(f.columns, name) != i;
    }
  }

  /** After writing `name`, the labels are the old ones and `name`. */
  lemma WriteMembership(f: Frame, name: string, values: seq<Cell>)
    requires Rect(f) && |values| == |f.rows|
    ensures forall c :: c in WithColumn(f, name, values).columns <==> c in f.columns || c == name
  {
  }

  /** Writing a column keeps the labels duplicate-free. */
  lemma WriteKeepsDistinct(f: Frame, name: string, values: seq<Cell>)
    requires Rect(f) && |values| == |f.rows| && Distinct(f.columns)
    ensures Distinct(WithColumn(f, name, values).columns)
  {
  }

  /** The rename map of the script: the new export's labels to the old format's. */
  const Renames: map<string, string> := map[
    "Incident Year" := "Incident year",
    "Month" := "Reported Month",
    "Migration Route" := "Migration route",
    "Location of Incident" := "Location of death"
  ]

  /** A name after `rename`: mapped when it is a key, else unchanged. */
  function RenameLabel(c: string): string {
    if c in Renames then Renames[c] else c
  }

  /** `df.rename(columns = Renames)`: every name renamed, cells untouched. */
  function Rename(f: Frame): (g: Frame)
    ensures |g.columns| == |f.columns| && g.rows == f.rows
    ensures forall i :: 0 <= i < |f.columns| ==> g.columns[i] == RenameLabel(f.columns[i])
  {
    Frame(seq(|f.columns|, i requires 0 <= i < |f.columns| => RenameLabel(f.columns[i])), f.rows)
  }

  /** No renamed name is itself renamed, so after `rename` none of the four old labels is left. */
  lemma RenameRemovesOldLabels(f: Frame)
    ensures forall k :: k in Renames ==> k !in Rename(f).columns
  {
  }

  /** No label is renamed onto a label the table already has. */
  predicate NoRenameClash(cols: seq<string>) {
    forall k :: k in Renames && k in cols ==> Renames[k] !in cols
  }

  /** Without a clash, renaming keeps the labels duplicate-free. */
  lemma RenameKeepsDistinct(f: Frame)
    requires Distinct(f.columns) && NoRenameClash(f.columns)
    ensures Distinct(Rename(f).columns)
  {
    var g := Rename(f);
    forall i, j | 0 <= i < j < |g.columns|
      ensures g.columns[i] != g.columns[j]
    {
      assert f.columns[i] != f.columns[j];
      if f.columns[i] in Renames && f.columns[j] !in Renames {
        assert f.columns[j] in f.columns;
      } else if f.columns[j] in Renames && f.columns[i] !in Renames {
        assert f.columns[i] in f.columns;
      }
    }
  }

  /** The labels after `rename` are the renamed labels of the table. */
  lemma RenameMembership(f: Frame, c: string)
    ensures c in Rename(f).columns <==> exists d :: d in f.columns && RenameLabel(d) == c
  {
    var g := Rename(f);
    if c in g.columns {
      var j :| 0 <= j < |g.columns| && g.columns[j] == c;
      assert f.columns[j] in f.columns;
    }
    if exists d :: d in f.columns && RenameLabel(d) == c {
      var d :| d in f.columns && RenameLabel(d) == c;
      var j :| 0 <= j < |f.columns| && f.columns[j] == d;
      assert g.columns[j] == c;
    }
  }

  /** A label that `rename` neither maps nor produces. */
  predicate Untouched(name: string) {
    name !in Renames && name !in Renames.Values
  }

  /** An untouched label reads the same cells after `rename`. */
  lemma RenameKeepsColumn(f: Frame, name: string)
    requires Rect(f) && Untouched(name)
    ensures ColumnOf(Rename(f), name) == ColumnOf(f, name)
  {
    var g := Rename(f);
    assert forall j :: 0 <= j < |f.columns| ==> (g.columns[j] == name <==> f.columns[j] == name);
    if name in f.columns {
      var i := LabelIndex(f.columns, name);
      assert name in g.columns by {
        assert g.columns[i] == name;
      }
      assert LabelIndex(g.columns, name) == i;
    } else {
      assert name !in g.columns;
    }
  }

  /** The column order of the old format, which the script projects onto. */
  const ColumnsOrder: seq<string> := [
    "Main ID", "Incident ID", "Incident Type", "Region of Incident",
    "Incident year", "Reported Month", "Number of Dead",
    "Minimum Estimated Number of Missing", "Total Number of Dead and Missing",
    "Number of Survivors", "Number of Females", "Number of Males",
    "Number of Children", "Country of Origin", "Region of Origin",
    "Cause of Death", "Migration route", "Location of death",
    "Information Source", "Coordinates", "UNSD Geographical Grouping",
    "X", "Y", "Season", "Cause of Death Abbreviation"
  ]

  /** `[col for col in order if col in present]`. */
  function ColumnsToKeep(order: seq<string>, present: seq<string>): seq<string> {
    if order == [] then []
    else (if order[0] in present then [order[0]] else []) + ColumnsToKeep(order[1..], present)
  }

  /** The kept columns are a subsequence of the order. */
  lemma {:induction false} KeepIsSubsequence(order: seq<string>, present: seq<string>)
    ensures IsSubsequence(ColumnsToKeep(order, present), order)
  {
    if order != [] {
      KeepIsSubsequence(order[1..], present);
      var rest := ColumnsToKeep(order[1..], present);
      if order[0] in present {
        SubsequenceTake(rest, order);
      } else {
        assert ColumnsToKeep(order, present) == rest;
        SubsequenceSkip(rest, order);
      }
    }
  }

  /** A name is kept exactly when it is in the order and present. */
  lemma {:induction false} KeepMembership(order: seq<string>, present: seq<string>, c: string)
    ensures c in ColumnsToKeep(order, present) <==> c in order && c in present
  {
    if order != [] {
      KeepMembership(order[1..], present, c);
      assert order == [order[0]] + order[1..];
    }
  }

  /** The order lists no name twice. */
  lemma ColumnsOrderDistinct()
    ensures Distinct(ColumnsOrder)
  {
    OrderDistinctFirst();
    OrderDistinctSecond();
    OrderDistinctThird();
    OrderDistinctLast();
  }

  /** The order's labels differ, compared in four bands of first positions. */
  lemma OrderDistinctFirst()
    ensures forall i, j :: 0 <= i < 4 && i < j < |ColumnsOrder| ==> ColumnsOrder[i] != ColumnsOrder[j]
  {
  }

  lemma OrderDistinctSecond()
    ensures forall i, j :: 4 <= i < 9 && i < j < |ColumnsOrder| ==> ColumnsOrder[i] != ColumnsOrder[j]
  {
  }

  lemma OrderDistinctThird()
    ensures forall i, j :: 9 <= i < 15 && i < j < |ColumnsOrder| ==> ColumnsOrder[i] != ColumnsOrder[j]
  {
  }

  lemma OrderDistinctLast()
    ensures forall i, j :: 15 <= i < 25 && i < j < |ColumnsOrder| ==> ColumnsOrder[i] != ColumnsOrder[j]
  {
  }

  /** The kept columns have no duplicates. */
  lemma KeepIsDistinct(present: seq<string>)
    ensures Distinct(ColumnsToKeep(ColumnsOrder, present))
  {
    KeepIsSubsequence(ColumnsOrder, present);
    ColumnsOrderDistinct();
    SubsequenceDistinct(ColumnsToKeep(ColumnsOrder, present), ColumnsOrder);
  }

  /** Positions of the columns labelled `name`, from position `start` on, in ascending order. */
  function PositionsFrom(cols: seq<string>, name: string, start: nat): (ps: seq<nat>)
    requires start <= |cols|
    ensures forall k :: 0 <= k < |ps| ==> start <= ps[k] < |cols| && cols[ps[k]] == name
    decreases |cols| - start
  {
    if start == |cols| then []
    else (if cols[start] == name then [start] else []) + PositionsFrom(cols, name, start + 1)
  }

  /** The positions `df[labels]` selects: for each name in turn, every column carrying it. */
  function Positions(cols: seq<string>, labels: seq<string>): (ps: seq<nat>)
    ensures forall k :: 0 <= k < |ps| ==> ps[k] < |cols| && cols[ps[k]] in labels
  {
    if labels == [] then []
    else PositionsFrom(cols, labels[0], 0) + Positions(cols, labels[1..])
  }

  /** The cells of `row` at positions `ps`. */
  function Pick(row: seq<Cell>, ps: seq<nat>): (r: seq<Cell>)
    requires forall k :: 0 <= k < |ps| ==> ps[k] < |row|
    ensures |r| == |ps|
  {
    seq(|ps|, k requires 0 <= k < |ps| => row[ps[k]])
  }

  /** `df[labels]`: the selected columns, in the order of `labels`. */
  function Select(f: Frame, labels: seq<string>): (g: Frame)
    requires Rect(f)
    ensures Rect(g) && |g.rows| == |f.rows|
  {
    var ps := Positions(f.columns, labels);
    Frame(seq(|ps|, k requires 0 <= k < |ps| => f.columns[ps[k]]),
          seq(|f.rows|, r requires 0 <= r < |f.rows| => Pick(f.rows[r], ps)))
  }

  /** A name that occurs once has one position. */
  lemma {:induction false} PositionsOfUnique(cols: seq<string>, name: string, start: nat)
    requires start <= |cols| && Distinct(cols)
    ensures |PositionsFrom(cols, name, start)| == if name in cols[start..] then 1 else 0
    decreases |cols| - start
  {
    if start < |cols| {
      PositionsOfUnique(cols, name, start + 1);
      assert cols[start..] == [cols[start]] + cols[start + 1..];
      if cols[start] == name {
        assert name !in cols[start + 1..];
      }
    }
  }

  /** Putting one position for the first label in front of positions matching the rest. */
  lemma PositionsCons(cols: seq<string>, labels: seq<string>, h: seq<nat>, rest: seq<nat>)
    requires labels != [] && |h| == 1 && h[0] < |cols| && cols[h[0]] == labels[0]
    requires |rest| == |labels| - 1
    requires forall k :: 0 <= k < |rest| ==> rest[k] < |cols| && cols[rest[k]] == labels[1..][k]
    ensures |h + rest| == |labels|
    ensures forall k :: 0 <= k < |labels| ==> (h + rest)[k] < |cols| && cols[(h + rest)[k]] == labels[k]
  {
    forall k | 0 < k < |labels|
      ensures (h + rest)[k] < |cols| && cols[(h + rest)[k]] == labels[k]
    {
      assert (h + rest)[k] == rest[k - 1] && labels[k] == labels[1..][k - 1];
    }
  }

  /** With distinct labels, selecting present labels takes one column per label, in the labels' order. */
  lemma {:induction false} SelectLabels(cols: seq<string>, labels: seq<string>)
    requires Distinct(cols) && forall l :: l in labels ==> l in cols
    ensures |Positions(cols, labels)| == |labels|
    ensures forall k :: 0 <= k < |labels| ==> cols[Positions(cols, labels)[k]] == labels[k]
  {
    if labels != [] {
      assert forall l :: l in labels[1..] ==> l in labels;
      SelectLabels(cols, labels[1..]);
      PositionsOfUnique(cols, labels[0], 0);
      assert cols[0..] == cols;
      var h := PositionsFrom(cols, labels[0], 0);
      var rest := Positions(cols, labels[1..]);
      assert Positions(cols, labels) == h + rest;
      PositionsCons(cols, labels, h, rest);
    }
  }

  /** The columns of `Select(f, labels)` are exactly `labels` when `f`'s labels are distinct and hold them all. */
  lemma SelectColumns(f: Frame, labels: seq<string>)
    requires Rect(f) && Distinct(f.columns) && forall l :: l in labels ==> l in f.columns
    ensures Select(f, labels).columns == labels
  {
    SelectLabels(f.columns, labels);
  }

  /** A cell of `Select(f, labels)` under label `name` is that row's cell of column `name` in `f`. */
  lemma SelectCell(f: Frame, labels: seq<string>, r: nat, k: nat, name: string)
    requires Rect(f) && Distinct(f.columns) && forall l :: l in labels ==> l in f.columns
    requires r < |f.rows| && k < |labels| && labels[k] == name
    ensures k < |Select(f, labels).rows[r]| && Select(f, labels).rows[r][k] == ColumnOf(f, name).value[r]
  {
    SelectLabels(f.columns, labels);
    var ps := Positions(f.columns, labels);
    assert f.columns[ps[k]] == name;
    assert LabelIndex(f.columns, name) == ps[k];
  }

  /**
   * A table with both `Month` and `Reported Month` has the second label twice
   * after `rename`, and selecting it keeps both columns.
   */
  lemma RenameCollision()
    ensures Rename(Frame(["Month", "Reported Month"], [])).columns == ["Reported Month", "Reported Month"]
    ensures Select(Frame(["Reported Month", "Reported Month"], []), ["Reported Month"]).columns ==
      ["Reported Month", "Reported Month"]
  {
    var cols := ["Reported Month", "Reported Month"];
    assert PositionsFrom(cols, "Reported Month", 2) == [];
    assert PositionsFrom(cols, "Reported Month", 1) == [1];
    assert PositionsFrom(cols, "Reported Month", 0) == [0, 1];
    assert Positions(cols, ["Reported Month"]) == [0, 1];
  }

  /** Every column of `Select(f, labels)` is one of the labels. */
  lemma SelectHasNoExtraColumns(f: Frame, labels: seq<string>)
    requires Rect(f)
    ensures forall c :: c in Select(f, labels).columns ==> c in labels
  {
  }

  /** Every cell of `row` at a column labelled in `subset` is present. */
  predicate Complete(cols: seq<string>, row: seq<Cell>, subset: seq<string>) {
    forall j :: 0 <= j < |cols| && j < |row| && cols[j] in subset ==> row[j].Some?
  }

  /** The rows `dropna(subset)` keeps. */
  function CompleteRows(cols: seq<string>, rows: seq<seq<Cell>>, subset: seq<string>): seq<seq<Cell>> {
    if rows == [] then []
    else (if Complete(cols, rows[0], subset) then [rows[0]] else []) + CompleteRows(cols, rows[1..], subset)
  }

  /** The rows `dropna(subset)` removes. */
  function IncompleteRows(cols: seq<string>, rows: seq<seq<Cell>>, subset: seq<string>): seq<seq<Cell>> {
    if rows == [] then []
    else (if Complete(cols, rows[0], subset) then [] else [rows[0]]) + IncompleteRows(cols, rows[1..], subset)
  }

  /** `df.dropna(subset = subset)`: the rows with no missing cell in those columns. */
  function DropNA(f: Frame, subset: seq<string>): (g: Frame)
    ensures g.columns == f.columns
    ensures Rect(f) ==> Rect(g)
  {
    KeptRowsFit(f.columns, f.rows, subset);
    Frame(f.columns, CompleteRows(f.columns, f.rows, subset))
  }

  /** The kept rows are rows of the table, so they keep its width. */
  lemma {:induction false} KeptRowsFit(cols: seq<string>, rows: seq<seq<Cell>>, subset: seq<string>)
    ensures (forall r :: 0 <= r < |rows| ==> |rows[r]| == |cols|) ==>
      forall r :: 0 <= r < |CompleteRows(cols, rows, subset)| ==> |CompleteRows(cols, rows, subset)[r]| == |cols|
  {
    if rows != [] {
      KeptRowsFit(cols, rows[1..], subset);
      if forall r :: 0 <= r < |rows| ==> |rows[r]| == |cols| {
        assert forall r :: 0 <= r < |rows[1..]| ==> |rows[1..][r]| == |cols| by {
          forall r | 0 <= r < |rows[1..]| ensures |rows[1..][r]| == |cols| {
            assert rows[1..][r] == rows[r + 1];
          }
        }
      }
    }
  }

  /** Kept and removed rows split the table: every row goes to exactly one side, according to whether it is complete. */
  lemma {:induction false} DropPartitions(cols: seq<string>, rows: seq<seq<Cell>>, subset: seq<string>)
    ensures |CompleteRows(cols, rows, subset)| + |IncompleteRows(cols, rows, subset)| == |rows|
    ensures multiset(CompleteRows(cols, rows, subset)) + multiset(IncompleteRows(cols, rows, subset)) == multiset(rows)
    ensures forall r :: r in CompleteRows(cols, rows, subset) ==> Complete(cols, r, subset)
    ensures forall r :: r in IncompleteRows(cols, rows, subset) ==> !Complete(cols, r, subset)
  {
    if rows != [] {
      DropPartitions(cols, rows[1..], subset);
      assert rows == [rows[0]] + rows[1..];
    }
  }

  /** `dropna` keeps the surviving rows in their order. */
  lemma {:induction false} DropKeepsOrder(cols: seq<string>, rows: seq<seq<Cell>>, subset: seq<string>)
    ensures IsSubsequence(CompleteRows(cols, rows, subset), rows)
  {
    if rows != [] {
      DropKeepsOrder(cols, rows[1..], subset);
      var rest := CompleteRows(cols, rows[1..], subset);
      if Complete(cols, rows[0], subset) {
        SubsequenceTake(rest, rows);
      } else {
        assert CompleteRows(cols, rows, subset) == rest;
        SubsequenceSkip(rest, rows);
      }
    }
  }

  /** A table with no missing cell in those columns loses no row. */
  lemma {:induction false} DropKeepsComplete(cols: seq<string>, rows: seq<seq<Cell>>, subset: seq<string>)
    requires forall r :: 0 <= r < |rows| ==> Complete(cols, rows[r], subset)
    ensures CompleteRows(cols, rows, subset) == rows
  {
    if rows != [] {
      DropKeepsComplete(cols, rows[1..], subset);
      assert [rows[0]] + rows[1..] == rows;
    }
  }
}
