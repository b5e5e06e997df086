/**
 * The body of the cleaning script: the derived columns are written into the
 * loaded table in place, then the table is renamed, projected onto the old
 * column order and stripped of rows without both coordinates.
 */
module NewData {
  import opened Wrappers
  import opened Seqs
  import opened PyFloat
  import opened Frames
  import opened CoordinateExtraction
  import opened Seasons
  import opened Causes

  /** `series.apply(extract_coordinates)`: every cell in row order; the first exception aborts. */
  function ExtractAll(cells: seq<Cell>): (r: Result<seq<Coords>, Failure>)
    ensures r.Ok? ==> |r.value| == |cells|
  {
    if cells == [] then Ok([])
    else match ExtractCoordinates(cells[0])
      case Err(e) => Err(e)
      case Ok(c) =>
        match ExtractAll(cells[1..])
        case Err(e) => Err(e)
        case Ok(cs) => Ok([c] + cs)
  }

  /** Every cell of the column parses without an exception. */
  predicate AllExtract(cells: seq<Cell>) {
    forall i :: 0 <= i < |cells| ==> ExtractCoordinates(cells[i]).Ok?
  }

  /** `ExtractAll` succeeds exactly when no cell raises. */
  lemma {:induction false} ExtractAllSucceeds(cells: seq<Cell>)
    ensures ExtractAll(cells).Ok? <==> AllExtract(cells)
  {
    if cells != [] {
      ExtractAllSucceeds(cells[1..]);
      ExtractAllCons(cells);
      AllExtractCons(cells);
    }
  }

  lemma ExtractAllCons(cells: seq<Cell>)
    requires cells != []
    ensures ExtractAll(cells).Ok? <==> ExtractCoordinates(cells[0]).Ok? && ExtractAll(cells[1..]).Ok?
  {
  }

  lemma AllExtractCons(cells: seq<Cell>)
    requires cells != []
    ensures AllExtract(cells) <==> ExtractCoordinates(cells[0]).Ok? && AllExtract(cells[1..])
  {
    var tail := cells[1..];
    if AllExtract(cells) {
      forall j | 0 <= j < |tail|
        ensures ExtractCoordinates(tail[j]).Ok?
      {
        assert tail[j] == cells[j + 1];
      }
    }
    if ExtractCoordinates(cells[0]).Ok? && AllExtract(tail) {
      forall i | 0 < i < |cells|
        ensures ExtractCoordinates(cells[i]).Ok?
      {
        assert cells[i] == tail[i - 1];
      }
    }
  }

  /** On success every row holds its own cell's coordinates. */
  lemma {:induction false} ExtractAllValues(cells: seq<Cell>)
    requires ExtractAll(cells).Ok?
    ensures forall i :: 0 <= i < |cells| ==> ExtractCoordinates(cells[i]) == Ok(ExtractAll(cells).value[i])
  {
    if cells != [] {
      ExtractAllValues(cells[1..]);
      var cs := ExtractAll(cells).value;
      assert cs == [ExtractCoordinates(cells[0]).value] + ExtractAll(cells[1..]).value;
      forall i | 0 < i < |cells|
        ensures ExtractCoordinates(cells[i]) == Ok(cs[i])
      {
        assert cells[i] == cells[1..][i - 1];
      }
    }
  }

  /** On failure the exception is the one of the first cell that raises. */
  lemma {:induction false} ExtractAllFirstError(cells: seq<Cell>) returns (i: nat)
    requires ExtractAll(cells).Err?
    ensures i < |cells| && ExtractCoordinates(cells[i]) == Err(ExtractAll(cells).error)
    ensures AllExtract(cells[..i])
  {
    if ExtractCoordinates(cells[0]).Err? {
      i := 0;
    } else {
      TailError(cells);
      var j := ExtractAllFirstError(cells[1..]);
      i := j + 1;
      assert cells[i] == cells[1..][j];
      PrefixExtends(cells, j);
    }
  }

  /** Past a first cell that parses, the failure is the tail's. */
  lemma TailError(cells: seq<Cell>)
    requires ExtractAll(cells).Err? && ExtractCoordinates(cells[0]).Ok?
    ensures ExtractAll(cells[1..]).Err? && ExtractAll(cells).error == ExtractAll(cells[1..]).error
  {
  }

  /** A parsing first cell extends a parsing prefix of the tail. */
  lemma PrefixExtends(cells: seq<Cell>, j: nat)
    requires j < |cells| - 1 && ExtractCoordinates(cells[0]).Ok? && AllExtract(cells[1..][..j])
    ensures AllExtract(cells[..j + 1])
  {
    var p, q := cells[..j + 1], cells[1..][..j];
    forall k | 0 < k < |p|
      ensures ExtractCoordinates(p[k]).Ok?
    {
      assert p[k] == q[k - 1];
    }
  }

  /** A coordinate as stored in the float column: a parsed NaN is a missing value. */
  function AsCell(v: Option<string>): (c: Cell)
    ensures c.Some? <==> v.Some? && !IsNaN(v.value)
    ensures c.Some? ==> c == v
  {
    match v
    case None => None
    case Some(t) => if IsNaN(t) then None else Some(t)
  }

  /** The new `X` column: `coords.apply(lambda x: x[0])`. */
  function XColumn(cs: seq<Coords>): (col: seq<Cell>)
    ensures |col| == |cs|
    ensures forall i :: 0 <= i < |cs| ==> col[i] == AsCell(cs[i].x)
  {
    seq(|cs|, i requires 0 <= i < |cs| => AsCell(cs[i].x))
  }

  /** The new `Y` column: `coords.apply(lambda x: x[1])`. */
  function YColumn(cs: seq<Coords>): (col: seq<Cell>)
    ensures |col| == |cs|
    ensures forall i :: 0 <= i < |cs| ==> col[i] == AsCell(cs[i].y)
  {
    seq(|cs|, i requires 0 <= i < |cs| => AsCell(cs[i].y))
  }

  /** The new `Season` column: `df['Month'].apply(get_season)`. */
  function SeasonColumn(months: seq<Cell>): (col: seq<Cell>)
    ensures |col| == |months|
    ensures forall i :: 0 <= i < |months| ==>
      col[i] == match GetSeason(months[i]) case None => None case Some(s) => Some(SeasonName(s))
  {
    seq(|months|, i requires 0 <= i < |months| =>
      match GetSeason(months[i]) case None => None case Some(s) => Some(SeasonName(s)))
  }

  /** The new `Cause of Death Abbreviation` column; it has no missing cell. */
  function CauseColumn(causes: seq<Cell>): (col: seq<Cell>)
    ensures |col| == |causes|
    ensures forall i :: 0 <= i < |causes| ==> col[i] == Some(GetCauseAbbreviation(causes[i]))
  {
    seq(|causes|, i requires 0 <= i < |causes| => Some(GetCauseAbbreviation(causes[i])))
  }

  /** Lines 82-83: the `X` and `Y` columns written. */
  function AddCoordinates(f: Frame, cs: seq<Coords>): (g: Frame)
    requires Rect(f) && |cs| == |f.rows|
    ensures Rect(g) && |g.rows| == |f.rows|
  {
    WithColumn(WithColumn(f, "X", XColumn(cs)), "Y", YColumn(cs))
  }

  /** Line 87: the `Season` column written. */
  function AddSeason(f: Frame, months: seq<Cell>): (g: Frame)
    requires Rect(f) && |months| == |f.rows|
    ensures Rect(g) && |g.rows| == |f.rows|
  {
    WithColumn(f, "Season", SeasonColumn(months))
  }

  /** Line 91: the `Cause of Death Abbreviation` column written. */
  function AddCause(f: Frame, causes: seq<Cell>): (g: Frame)
    requires Rect(f) && |causes| == |f.rows|
    ensures Rect(g) && |g.rows| == |f.rows|
  {
    WithColumn(f, "Cause of Death Abbreviation", CauseColumn(causes))
  }

  /** The loaded table after the in-place writes, and the exception that stopped them, if any. */
  datatype Derived = Derived(frame: Frame, failure: Option<Failure>)

  /**
   * Lines 77-91. The progress message on line 77 reads `df['Incident Year']`,
   * so its absence already aborts; an exception later leaves the columns
   * written so far in the table.
   */
  function Derive(f: Frame): (d: Derived)
    requires Rect(f)
    ensures Rect(d.frame) && |d.frame.rows| == |f.rows|
  {
    if "Incident Year" !in f.columns then Derived(f, Some(KeyError("Incident Year")))
    else match ColumnOf(f, "Coordinates")
      case Err(e) => Derived(f, Some(e))
      case Ok(cells) => DeriveCoordinates(f, cells)
  }

  /** Lines 81-83: the parsed coordinates written as `X` and `Y`. */
  function DeriveCoordinates(f: Frame, cells: seq<Cell>): (d: Derived)
    requires Rect(f) && |cells| == |f.rows|
    ensures Rect(d.frame) && |d.frame.rows| == |f.rows|
  {
    match ExtractAll(cells)
    case Err(e) => Derived(f, Some(e))
    case Ok(cs) => DeriveSeason(AddCoordinates(f, cs))
  }

  /** Line 87: the `Season` column from `Month`. */
  function DeriveSeason(f: Frame): (d: Derived)
    requires Rect(f)
    ensures Rect(d.frame) && |d.frame.rows| == |f.rows|
  {
    match ColumnOf(f, "Month")
    case Err(e) => Derived(f, Some(e))
    case Ok(months) => DeriveCause(AddSeason(f, months))
  }

  /** Line 91: the abbreviation column from `Cause of Death`. */
  function DeriveCause(f: Frame): (d: Derived)
    requires Rect(f)
    ensures Rect(d.frame) && |d.frame.rows| == |f.rows|
  {
    match ColumnOf(f, "Cause of Death")
    case Err(e) => Derived(f, Some(e))
    case Ok(causes) => Derived(AddCause(f, causes), None)
  }

  /** The table after all four writes, given the cells they were computed from. */
  function Written(f: Frame, cs: seq<Coords>, months: seq<Cell>, causes: seq<Cell>): (g: Frame)
    requires Rect(f) && |cs| == |f.rows| && |months| == |f.rows| && |causes| == |f.rows|
    ensures Rect(g) && |g.rows| == |f.rows|
  {
    AddCause(AddSeason(AddCoordinates(f, cs), months), causes)
  }

  /** Lines 94-116: rename, then keep the columns of the old order that exist. */
  function Project(g: Frame): (h: Frame)
    requires Rect(g)
    ensures Rect(h) && |h.rows| == |g.rows|
  {
    var renamed := Rename(g);
    Select(renamed, ColumnsToKeep(ColumnsOrder, renamed.columns))
  }

  /** Lines 94-121: rename, project onto the old order, drop rows without both coordinates. */
  function Finish(g: Frame): (h: Frame)
    requires Rect(g)
  {
    DropNA(Project(g), ["X", "Y"])
  }

  /** The table the script writes out, or the exception that aborts it. */
  function Normalize(f: Frame): Result<Frame, Failure>
    requires Rect(f)
  {
    var d := Derive(f);
    match d.failure
    case Some(e) => Err(e)
    case None => Ok(Finish(d.frame))
  }

  /** The four labels the script adds. */
  const NewLabels: seq<string> := ["X", "Y", "Season", "Cause of Death Abbreviation"]

  /** The columns the script reads. */
  predicate HasInputs(cols: seq<string>) {
    "Incident Year" in cols && "Coordinates" in cols && "Month" in cols && "Cause of Death" in cols
  }

  /** Writing `X` and `Y` changes no other column. */
  lemma CoordinatesKeepOthers(f: Frame, cs: seq<Coords>, c: string)
    requires Rect(f) && |cs| == |f.rows| && c != "X" && c != "Y"
    ensures ColumnOf(AddCoordinates(f, cs), c) == ColumnOf(f, c)
  {
    WriteKeepsOthers(f, "X", XColumn(cs), c);
    WriteKeepsOthers(WithColumn(f, "X", XColumn(cs)), "Y", YColumn(cs), c);
  }

  /** Writing the derived columns changes no column the script reads. */
  lemma InputsUnchanged(f: Frame, cs: seq<Coords>, months: seq<Cell>, c: string)
    requires Rect(f) && |cs| == |f.rows| && |months| == |f.rows| && c != "X" && c != "Y" && c != "Season"
    ensures ColumnOf(AddCoordinates(f, cs), c) == ColumnOf(f, c)
    ensures ColumnOf(AddSeason(AddCoordinates(f, cs), months), c) == ColumnOf(f, c)
  {
    CoordinatesKeepOthers(f, cs, c);
    WriteKeepsOthers(AddCoordinates(f, cs), "Season", SeasonColumn(months), c);
  }

  /** The first step of a complete run: the coordinates parse. */
  lemma CoordinatesStep(f: Frame) returns (cs: seq<Coords>)
    requires Rect(f) && Derive(f).failure.None?
    ensures "Incident Year" in f.columns && "Coordinates" in f.columns
    ensures ExtractAll(ColumnOf(f, "Coordinates").value) == Ok(cs) && |cs| == |f.rows|
    ensures Derive(f) == DeriveSeason(AddCoordinates(f, cs))
  {
    cs := ExtractAll(ColumnOf(f, "Coordinates").value).value;
  }

  /** The second step of a complete run: `Month` exists. */
  lemma SeasonStep(f: Frame) returns (months: seq<Cell>)
    requires Rect(f) && DeriveSeason(f).failure.None?
    ensures ColumnOf(f, "Month") == Ok(months) && |months| == |f.rows|
    ensures DeriveSeason(f) == DeriveCause(AddSeason(f, months))
  {
    months := ColumnOf(f, "Month").value;
  }

  /** The last step of a complete run: `Cause of Death` exists. */
  lemma CauseStep(f: Frame) returns (causes: seq<Cell>)
    requires Rect(f) && DeriveCause(f).failure.None?
    ensures ColumnOf(f, "Cause of Death") == Ok(causes) && |causes| == |f.rows|
    ensures DeriveCause(f) == Derived(AddCause(f, causes), None)
  {
    causes := ColumnOf(f, "Cause of Death").value;
  }

  /** After the coordinates, the run completes exactly when `Month` and `Cause of Death` exist, and otherwise stops at the first missing one. */
  lemma LaterSteps(f: Frame, cs: seq<Coords>)
    requires Rect(f) && |cs| == |f.rows|
    ensures DeriveSeason(AddCoordinates(f, cs)).failure.None? <==> "Month" in f.columns && "Cause of Death" in f.columns
    ensures DeriveSeason(AddCoordinates(f, cs)).failure.Some? ==>
      DeriveSeason(AddCoordinates(f, cs)).failure.value ==
        (if "Month" in f.columns then KeyError("Cause of Death") else KeyError("Month"))
  {
    var f1 := AddCoordinates(f, cs);
    CoordinatesKeepOthers(f, cs, "Month");
    if "Month" in f.columns {
      var months := ColumnOf(f1, "Month").value;
      InputsUnchanged(f, cs, months, "Cause of Death");
    }
  }

  /** The intermediate columns of a run that reaches the end, as the steps read them. */
  lemma DeriveEnd(f: Frame) returns (cs: seq<Coords>, months: seq<Cell>, causes: seq<Cell>)
    requires Rect(f) && Derive(f).failure.None?
    ensures ExtractAll(ColumnOf(f, "Coordinates").value) == Ok(cs) && |cs| == |f.rows|
    ensures ColumnOf(AddCoordinates(f, cs), "Month") == Ok(months) && |months| == |f.rows|
    ensures ColumnOf(AddSeason(AddCoordinates(f, cs), months), "Cause of Death") == Ok(causes)
    ensures |causes| == |f.rows|
    ensures Derive(f).frame == AddCause(AddSeason(AddCoordinates(f, cs), months), causes)
  {
    cs := CoordinatesStep(f);
    var f1 := AddCoordinates(f, cs);
    months := SeasonStep(f1);
    var f2 := AddSeason(f1, months);
    causes := CauseStep(f2);
  }

  /** The `Month` and `Cause of Death` cells the later steps read are the input's. */
  lemma StepsReadInputs(f: Frame, cs: seq<Coords>, months: seq<Cell>, causes: seq<Cell>)
    requires Rect(f) && |cs| == |f.rows| && |months| == |f.rows|
    requires ColumnOf(AddCoordinates(f, cs), "Month") == Ok(months)
    requires ColumnOf(AddSeason(AddCoordinates(f, cs), months), "Cause of Death") == Ok(causes)
    ensures ColumnOf(f, "Month") == Ok(months) && ColumnOf(f, "Cause of Death") == Ok(causes)
  {
    InputsUnchanged(f, cs, months, "Month");
    InputsUnchanged(f, cs, months, "Cause of Death");
  }

  /** The script runs to the end exactly when the columns it reads exist and no coordinate cell raises. */
  lemma NormalizeSucceeds(f: Frame)
    requires Rect(f)
    ensures Normalize(f).Ok? <==> HasInputs(f.columns) && AllExtract(ColumnOf(f, "Coordinates").value)
  {
    if "Incident Year" in f.columns && "Coordinates" in f.columns {
      var cells := ColumnOf(f, "Coordinates").value;
      ExtractAllSucceeds(cells);
      if ExtractAll(cells).Ok? {
        LaterSteps(f, ExtractAll(cells).value);
      }
    }
  }

  /** An abort is a missing input column, or a `POINT` token that `float()` rejects. */
  lemma NormalizeFailure(f: Frame)
    requires Rect(f) && Normalize(f).Err?
    ensures var e := Normalize(f).error;
      (e.KeyError? && e.column in ["Incident Year", "Coordinates", "Month", "Cause of Death"] && e.column !in f.columns) ||
      (e.ValueError? && !IsFloatLiteral(e.literal))
  {
    if "Incident Year" in f.columns && "Coordinates" in f.columns {
      var cells := ColumnOf(f, "Coordinates").value;
      if ExtractAll(cells).Err? {
        var i := ExtractAllFirstError(cells);
      } else {
        LaterSteps(f, ExtractAll(cells).value);
      }
    }
  }

  /** The four derived columns hold the cells computed for them. */
  lemma WrittenDerived(f: Frame, cs: seq<Coords>, months: seq<Cell>, causes: seq<Cell>)
    requires Rect(f) && |cs| == |f.rows| && |months| == |f.rows| && |causes| == |f.rows|
    ensures ColumnOf(Written(f, cs, months, causes), "X") == Ok(XColumn(cs))
    ensures ColumnOf(Written(f, cs, months, causes), "Y") == Ok(YColumn(cs))
    ensures ColumnOf(Written(f, cs, months, causes), "Season") == Ok(SeasonColumn(months))
    ensures ColumnOf(Written(f, cs, months, causes), "Cause of Death Abbreviation") == Ok(CauseColumn(causes))
  {
    var f0 := WithColumn(f, "X", XColumn(cs));
    var f1 := AddCoordinates(f, cs);
    var f2 := AddSeason(f1, months);
    ReadAfterWrite(f, "X", XColumn(cs));
    WriteKeepsOthers(f0, "Y", YColumn(cs), "X");
    WriteKeepsOthers(f1, "Season", SeasonColumn(months), "X");
    WriteKeepsOthers(f2, "Cause of Death Abbreviation", CauseColumn(causes), "X");
    ReadAfterWrite(f0, "Y", YColumn(cs));
    WriteKeepsOthers(f1, "Season", SeasonColumn(months), "Y");
    WriteKeepsOthers(f2, "Cause of Death Abbreviation", CauseColumn(causes), "Y");
    ReadAfterWrite(f1, "Season", SeasonColumn(months));
    WriteKeepsOthers(f2, "Cause of Death Abbreviation", CauseColumn(causes), "Season");
    ReadAfterWrite(f2, "Cause of Death Abbreviation", CauseColumn(causes));
  }

  /** A column other than the four derived ones is as it was. */
  lemma WrittenKeepsOther(f: Frame, cs: seq<Coords>, months: seq<Cell>, causes: seq<Cell>, c: string)
    requires Rect(f) && |cs| == |f.rows| && |months| == |f.rows| && |causes| == |f.rows|
    requires c != "X" && c != "Y" && c != "Season" && c != "Cause of Death Abbreviation"
    ensures ColumnOf(Written(f, cs, months, causes), c) == ColumnOf(f, c)
  {
    InputsUnchanged(f, cs, months, c);
    WriteKeepsOthers(AddSeason(AddCoordinates(f, cs), months), "Cause of Death Abbreviation", CauseColumn(causes), c);
  }

  /**
   * The four writes leave the derived columns computed from the input's
   * `Coordinates`, `Month` and `Cause of Death` cells, and every other
   * column as it was.
   */
  lemma WrittenColumns(f: Frame, cs: seq<Coords>, months: seq<Cell>, causes: seq<Cell>)
    requires Rect(f) && |cs| == |f.rows| && |months| == |f.rows| && |causes| == |f.rows|
    ensures ColumnOf(Written(f, cs, months, causes), "X") == Ok(XColumn(cs))
    ensures ColumnOf(Written(f, cs, months, causes), "Y") == Ok(YColumn(cs))
    ensures ColumnOf(Written(f, cs, months, causes), "Season") == Ok(SeasonColumn(months))
    ensures ColumnOf(Written(f, cs, months, causes), "Cause of Death Abbreviation") == Ok(CauseColumn(causes))
    ensures forall c :: c !in NewLabels ==> ColumnOf(Written(f, cs, months, causes), c) == ColumnOf(f, c)
  {
    WrittenDerived(f, cs, months, causes);
    forall c | c !in NewLabels
      ensures ColumnOf(Written(f, cs, months, causes), c) == ColumnOf(f, c)
    {
      assert NewLabels[0] == "X" && NewLabels[1] == "Y" && NewLabels[2] == "Season";
      assert NewLabels[3] == "Cause of Death Abbreviation";
      WrittenKeepsOther(f, cs, months, causes, c);
    }
  }

  /** Four writes add their four names to the labels. */
  lemma FourNames(c0: seq<string>, c1: seq<string>, c2: seq<string>, c3: seq<string>, c4: seq<string>,
                  a: string, b: string, x: string, d: string)
    requires forall c :: c in c1 <==> c in c0 || c == a
    requires forall c :: c in c2 <==> c in c1 || c == b
    requires forall c :: c in c3 <==> c in c2 || c == x
    requires forall c :: c in c4 <==> c in c3 || c == d
    ensures forall c :: c in c4 <==> c in c0 || c in [a, b, x, d]
  {
  }

  /** The labels after the writes are the input's plus the four new ones, still duplicate-free. */
  lemma WrittenLabels(f: Frame, cs: seq<Coords>, months: seq<Cell>, causes: seq<Cell>)
    requires Rect(f) && |cs| == |f.rows| && |months| == |f.rows| && |causes| == |f.rows|
    ensures forall c :: c in Written(f, cs, months, causes).columns <==> c in f.columns || c in NewLabels
    ensures Distinct(f.columns) ==> Distinct(Written(f, cs, months, causes).columns)
  {
    var f0 := WithColumn(f, "X", XColumn(cs));
    var f1 := AddCoordinates(f, cs);
    var f2 := AddSeason(f1, months);
    var f3 := Written(f, cs, months, causes);
    WriteMembership(f, "X", XColumn(cs));
    WriteMembership(f0, "Y", YColumn(cs));
    WriteMembership(f1, "Season", SeasonColumn(months));
    WriteMembership(f2, "Cause of Death Abbreviation", CauseColumn(causes));
    FourNames(f.columns, f0.columns, f1.columns, f2.columns, f3.columns,
      "X", "Y", "Season", "Cause of Death Abbreviation");
    if Distinct(f.columns) {
      WriteKeepsDistinct(f, "X", XColumn(cs));
      WriteKeepsDistinct(f0, "Y", YColumn(cs));
      WriteKeepsDistinct(f1, "Season", SeasonColumn(months));
      WriteKeepsDistinct(f2, "Cause of Death Abbreviation", CauseColumn(causes));
    }
  }

  /** A label of the renamed table after the writes is a renamed input label or a new one. */
  lemma RenamedMember(f: Frame, g: Frame, c: string)
    requires forall c :: c in g.columns <==> c in f.columns || c in NewLabels
    ensures c in Rename(g).columns <==> c in Rename(f).columns || c in NewLabels
  {
    RenameMembership(g, c);
    RenameMembership(f, c);
    if c in NewLabels {
      assert c in g.columns && RenameLabel(c) == c;
    }
  }

  /** The renamed labels after the writes are the input's renamed labels plus the four new ones. */
  lemma RenamedLabels(f: Frame, g: Frame)
    requires forall c :: c in g.columns <==> c in f.columns || c in NewLabels
    ensures forall c :: c in Rename(g).columns <==> c in Rename(f).columns || c in NewLabels
  {
    forall c
      ensures c in Rename(g).columns <==> c in Rename(f).columns || c in NewLabels
    {
      RenamedMember(f, g, c);
    }
  }

  /** The new labels are not renamed onto, so the writes cause no rename clash. */
  lemma WrittenNoClash(f: Frame, g: Frame)
    requires forall c :: c in g.columns <==> c in f.columns || c in NewLabels
    requires NoRenameClash(f.columns)
    ensures NoRenameClash(g.columns)
  {
    forall k | k in Renames && k in g.columns
      ensures Renames[k] !in g.columns
    {
      assert k in f.columns;
      assert Renames[k] !in NewLabels;
    }
  }

  /** With duplicate-free renamed labels, the projection's columns are the kept labels. */
  lemma ProjectColumns(g: Frame)
    requires Rect(g) && Distinct(Rename(g).columns)
    ensures Project(g).columns == ColumnsToKeep(ColumnsOrder, Rename(g).columns)
    ensures forall c :: c in Project(g).columns <==> c in ColumnsOrder && c in Rename(g).columns
  {
    var renamed := Rename(g);
    var kept := ColumnsToKeep(ColumnsOrder, renamed.columns);
    forall c
      ensures c in kept <==> c in ColumnsOrder && c in renamed.columns
    {
      KeepMembership(ColumnsOrder, renamed.columns, c);
    }
    SelectColumns(renamed, kept);
  }

  /** A complete run, read through its intermediate cells. */
  lemma CompleteRun(f: Frame) returns (cs: seq<Coords>, g: Frame)
    requires Rect(f) && Distinct(f.columns) && NoRenameClash(f.columns) && Normalize(f).Ok?
    ensures Rect(g) && g == Derive(f).frame && Normalize(f) == Ok(Finish(g))
    ensures ExtractAll(ColumnOf(f, "Coordinates").value) == Ok(cs) && |cs| == |f.rows| == |g.rows|
    ensures ColumnOf(g, "X") == Ok(XColumn(cs)) && ColumnOf(g, "Y") == Ok(YColumn(cs))
    ensures Distinct(Rename(g).columns)
    ensures forall c :: c in Rename(g).columns <==> c in Rename(f).columns || c in NewLabels
  {
    var months, causes;
    cs, months, causes := DeriveEnd(f);
    g := Written(f, cs, months, causes);
    WrittenColumns(f, cs, months, causes);
    WrittenLabels(f, cs, months, causes);
    RenamedLabels(f, g);
    WrittenNoClash(f, g);
    RenameKeepsDistinct(g);
  }

  /**
   * The output columns are the entries of the old column order that the
   * renamed table has, in that order and once each: the subsequence of the
   * order the projection keeps, with the four new columns always among them.
   */
  lemma NormalizeColumns(f: Frame)
    requires Rect(f) && Distinct(f.columns) && NoRenameClash(f.columns) && Normalize(f).Ok?
    ensures IsSubsequence(Normalize(f).value.columns, ColumnsOrder)
    ensures Distinct(Normalize(f).value.columns)
    ensures forall c :: c in Normalize(f).value.columns <==>
      c in ColumnsOrder && (c in Rename(f).columns || c in NewLabels)
    ensures forall c :: c in NewLabels ==> c in Normalize(f).value.columns
  {
    var cs, g := CompleteRun(f);
    ProjectColumns(g);
    KeepIsSubsequence(ColumnsOrder, Rename(g).columns);
    KeepIsDistinct(Rename(g).columns);
  }

  /** Whether both coordinates of a row were found and are not NaN. */
  predicate Located(c: Coords) {
    AsCell(c.x).Some? && AsCell(c.y).Some?
  }

  /** The number of rows whose `X` or `Y` is missing. */
  function Unlocated(cs: seq<Coords>): (n: nat)
    ensures n <= |cs|
  {
    if cs == [] then 0
    else (if Located(cs[0]) then 0 else 1) + Unlocated(cs[1..])
  }

  /** When completeness of each row is whether its coordinates were found, `dropna` removes `Unlocated` rows. */
  lemma {:induction false} CountDropped(cols: seq<string>, rows: seq<seq<Cell>>, cs: seq<Coords>)
    requires |cs| == |rows|
    requires forall r :: 0 <= r < |rows| ==> (Complete(cols, rows[r], ["X", "Y"]) <==> Located(cs[r]))
    ensures |IncompleteRows(cols, rows, ["X", "Y"])| == Unlocated(cs)
  {
    if rows != [] {
      assert Complete(cols, rows[0], ["X", "Y"]) <==> Located(cs[0]);
      forall r | 0 <= r < |rows[1..]|
        ensures Complete(cols, rows[1..][r], ["X", "Y"]) <==> Located(cs[1..][r])
      {
        assert rows[1..][r] == rows[r + 1] && cs[1..][r] == cs[r + 1];
      }
      CountDropped(cols, rows[1..], cs[1..]);
    }
  }

  /** The new labels are untouched by `rename`. */
  lemma NewLabelsUntouched()
    ensures forall c :: c in NewLabels ==> Untouched(c)
  {
  }

  /** Under an untouched label, a cell of the projection is the table's cell of that column. */
  lemma ProjectedCell(g: Frame, name: string, cells: seq<Cell>, r: nat, j: nat)
    requires Rect(g) && Distinct(Rename(g).columns) && Untouched(name)
    requires ColumnOf(g, name) == Ok(cells) && r < |g.rows|
    requires j < |Project(g).columns| && Project(g).columns[j] == name
    ensures j < |Project(g).rows[r]| && Project(g).rows[r][j] == cells[r]
  {
    var renamed := Rename(g);
    var kept := ColumnsToKeep(ColumnsOrder, renamed.columns);
    ProjectColumns(g);
    RenameKeepsColumn(g, name);
    forall c | c in kept
      ensures c in renamed.columns
    {
      KeepMembership(ColumnsOrder, renamed.columns, c);
    }
    SelectCell(renamed, kept, r, j, name);
  }

  /** An untouched label of the old order survives the projection. */
  lemma ProjectKeeps(g: Frame, name: string) returns (j: nat)
    requires Rect(g) && Distinct(Rename(g).columns) && Untouched(name)
    requires name in ColumnsOrder && name in g.columns
    ensures j < |Project(g).columns| && Project(g).columns[j] == name
  {
    ProjectColumns(g);
    var i :| 0 <= i < |g.columns| && g.columns[i] == name;
    assert Rename(g).columns[i] == name;
    assert name in Project(g).columns;
    j :| 0 <= j < |Project(g).columns| && Project(g).columns[j] == name;
  }

  /** The cells of row `r` of the projection under `X` or `Y`. */
  lemma ProjectedCoordinate(g: Frame, xs: seq<Cell>, ys: seq<Cell>, r: nat, j: nat)
    requires Rect(g) && Distinct(Rename(g).columns)
    requires ColumnOf(g, "X") == Ok(xs) && ColumnOf(g, "Y") == Ok(ys) && r < |g.rows|
    requires j < |Project(g).columns| && Project(g).columns[j] in ["X", "Y"]
    ensures j < |Project(g).rows[r]|
    ensures Project(g).rows[r][j] == if Project(g).columns[j] == "X" then xs[r] else ys[r]
  {
    NewLabelsUntouched();
    if Project(g).columns[j] == "X" {
      ProjectedCell(g, "X", xs, r, j);
    } else {
      ProjectedCell(g, "Y", ys, r, j);
    }
  }

  /** A row whose `X` and `Y` cells are `x` and `y` wherever those labels occur, and which has both labels. */
  lemma CompleteOnCoordinates(cols: seq<string>, row: seq<Cell>, x: Cell, y: Cell, jx: nat, jy: nat)
    requires |row| == |cols| && jx < |cols| && jy < |cols| && cols[jx] == "X" && cols[jy] == "Y"
    requires forall j :: 0 <= j < |cols| && cols[j] in ["X", "Y"] ==> row[j] == if cols[j] == "X" then x else y
    ensures Complete(cols, row, ["X", "Y"]) <==> x.Some? && y.Some?
  {
    assert cols[jx] in ["X", "Y"] && cols[jy] in ["X", "Y"];
  }

  /** Row `r` of the projection has both coordinates exactly when its `X` and `Y` cells are present. */
  lemma ProjectedRowComplete(g: Frame, xs: seq<Cell>, ys: seq<Cell>, r: nat)
    requires Rect(g) && Distinct(Rename(g).columns)
    requires ColumnOf(g, "X") == Ok(xs) && ColumnOf(g, "Y") == Ok(ys) && r < |g.rows|
    ensures Complete(Project(g).columns, Project(g).rows[r], ["X", "Y"]) <==> xs[r].Some? && ys[r].Some?
  {
    var p := Project(g);
    var row := p.rows[r];
    forall j | 0 <= j < |p.columns| && p.columns[j] in ["X", "Y"]
      ensures row[j] == if p.columns[j] == "X" then xs[r] else ys[r]
    {
      ProjectedCoordinate(g, xs, ys, r, j);
    }
    NewLabelsUntouched();
    var jx := ProjectKeeps(g, "X");
    var jy := ProjectKeeps(g, "Y");
    CompleteOnCoordinates(p.columns, row, xs[r], ys[r], jx, jy);
  }

  /**
   * Every output row has both coordinates, the surviving rows keep their
   * order, and the rows removed are exactly as many as those whose `X` or
   * `Y` is missing.
   */
  lemma NormalizeRows(f: Frame) returns (cs: seq<Coords>)
    requires Rect(f) && Distinct(f.columns) && NoRenameClash(f.columns) && Normalize(f).Ok?
    ensures ExtractAll(ColumnOf(f, "Coordinates").value) == Ok(cs)
    ensures forall r :: r in Normalize(f).value.rows ==> Complete(Normalize(f).value.columns, r, ["X", "Y"])
    ensures IsSubsequence(Normalize(f).value.rows, Project(Derive(f).frame).rows)
    ensures |Normalize(f).value.rows| + Unlocated(cs) == |f.rows|
  {
    var g;
    cs, g := CompleteRun(f);
    var p := Project(g);
    DropPartitions(p.columns, p.rows, ["X", "Y"]);
    DropKeepsOrder(p.columns, p.rows, ["X", "Y"]);
    forall r | 0 <= r < |p.rows|
      ensures Complete(p.columns, p.rows[r], ["X", "Y"]) <==> Located(cs[r])
    {
      ProjectedRowComplete(g, XColumn(cs), YColumn(cs), r);
    }
    CountDropped(p.columns, p.rows, cs);
  }

  /** The loaded table, as the object the script writes its new columns into. */
  class DataFrame {
    var columns: seq<string>
    var rows: seq<seq<Cell>>

    function Value(): Frame
      reads this
    {
      Frame(columns, rows)
    }

    /** One cell per column in every row; `read_csv` makes the labels unique. */
    ghost predicate Valid()
      reads this
    {
      Rect(Value()) && Distinct(columns)
    }

    constructor (f: Frame)
      requires Rect(f) && Distinct(f.columns)
      ensures Valid() && Value() == f
    {
      columns := f.columns;
      rows := f.rows;
    }

    /** `df[name]`. */
    method Column(name: string) returns (r: Result<seq<Cell>, Failure>)
      requires Valid()
      ensures r == ColumnOf(Value(), name)
      ensures r.Ok? ==> |r.value| == |rows|
    {
      r := ColumnOf(Value(), name);
    }

    /** `df[name] = values`. */
    method SetColumn(name: string, values: seq<Cell>)
      requires Valid() && |values| == |rows|
      modifies this
      ensures Valid() && Value() == WithColumn(old(Value()), name, values)
    {
      WriteKeepsDistinct(Value(), name, values);
      var g := WithColumn(Value(), name, values);
      columns, rows := g.columns, g.rows;
    }
  }

  /**
   * The script body: `df` receives the derived columns in place, then the
   * renamed, projected and filtered table is the result. On an exception
   * the object holds what was written before it.
   */
  method ProcessNewData(df: DataFrame) returns (out: Result<Frame, Failure>)
    requires df.Valid()
    modifies df
    ensures df.Valid()
    ensures df.Value() == Derive(old(df.Value())).frame
    ensures out == Normalize(old(df.Value()))
  {
    if "Incident Year" !in df.columns {
      return Err(KeyError("Incident Year"));
    }
    var coordinates := df.Column("Coordinates");
    if coordinates.Err? {
      return Err(coordinates.error);
    }
    var extracted := ExtractAll(coordinates.value);
    if extracted.Err? {
      return Err(extracted.error);
    }
    df.SetColumn("X", XColumn(extracted.value));
    df.SetColumn("Y", YColumn(extracted.value));
    var months := df.Column("Month");
    if months.Err? {
      return Err(months.error);
    }
    df.SetColumn("Season", SeasonColumn(months.value));
    var causes := df.Column("Cause of Death");
    if causes.Err? {
      return Err(causes.error);
    }
    df.SetColumn("Cause of Death Abbreviation", CauseColumn(causes.value));
    var renamed := Rename(df.Value());
    var kept := ColumnsToKeep(ColumnsOrder, renamed.columns);
    var projected := Select(renamed, kept);
    out := Ok(DropNA(projected, ["X", "Y"]));
  }
}
