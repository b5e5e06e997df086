/**
 * The sidebar of the dashboard's home page: the route, cause and year
 * selections narrow the incident table, the selected years are sorted and
 * rendered as an English list for the statistics heading, and the statistics
 * table is narrowed by year alone.
 */
module Home {
  import opened Wrappers
  import opened Seqs
  import opened PyStr
  import opened Frames

  /** The fields of an incident the sidebar filters on. */
  datatype Incident = Incident(route: Cell, cause: Cell, year: int)

  /** One membership filter; `isin` matches a missing value against a missing value. */
  datatype Criterion =
    | RouteIn(routes: seq<Cell>)
    | CauseIn(causes: seq<Cell>)
    | YearIn(years: seq<int>)

  predicate Matches(x: Incident, c: Criterion) {
    match c
    case RouteIn(routes) => x.route in routes
    case CauseIn(causes) => x.cause in causes
    case YearIn(years) => x.year in years
  }

  /** `rows[rows[field].isin(selection)]`. */
  function Where(rows: seq<Incident>, c: Criterion): seq<Incident> {
    if rows == [] then []
    else (if Matches(rows[0], c) then [rows[0]] else []) + Where(rows[1..], c)
  }

  /** A filter keeps exactly the matching rows. */
  lemma {:induction false} WhereMembership(rows: seq<Incident>, c: Criterion, x: Incident)
    ensures x in Where(rows, c) <==> x in rows && Matches(x, c)
  {
    if rows != [] {
      WhereMembership(rows[1..], c, x);
      assert rows == [rows[0]] + rows[1..];
    }
  }

  /** A filter keeps every copy of a matching row and no copy of any other. */
  lemma {:induction false} WhereCount(rows: seq<Incident>, c: Criterion, x: Incident)
    ensures multiset(Where(rows, c))[x] == if Matches(x, c) then multiset(rows)[x] else 0
  {
    if rows != [] {
      WhereCount(rows[1..], c, x);
      assert rows == [rows[0]] + rows[1..];
    }
  }

  /** A filter keeps the order of the rows it keeps. */
  lemma {:induction false} WhereSubsequence(rows: seq<Incident>, c: Criterion)
    ensures IsSubsequence(Where(rows, c), rows)
  {
    if rows != [] {
      WhereSubsequence(rows[1..], c);
      var rest := Where(rows[1..], c);
      if Matches(rows[0], c) {
        SubsequenceTake(rest, rows);
      } else {
        assert Where(rows, c) == rest;
        SubsequenceSkip(rest, rows);
      }
    }
  }

  /** A filter every row passes keeps the table as it is. */
  lemma {:induction false} WhereAllMatch(rows: seq<Incident>, c: Criterion)
    requires forall i :: 0 <= i < |rows| ==> Matches(rows[i], c)
    ensures Where(rows, c) == rows
  {
    if rows != [] {
      assert forall i :: 0 <= i < |rows[1..]| ==> Matches(rows[1..][i], c) by {
        forall i | 0 <= i < |rows[1..]| ensures Matches(rows[1..][i], c) {
          assert rows[1..][i] == rows[i + 1];
        }
      }
      WhereAllMatch(rows[1..], c);
      assert [rows[0]] + rows[1..] == rows;
    }
  }

  /** Ascending order. */
  ghost predicate Ascending(s: seq<int>) {
    forall i, j :: 0 <= i < j < |s| ==> s[i] <= s[j]
  }

  /** `y` placed before the first larger-or-equal element of `s`. */
  function Insert(y: int, s: seq<int>): seq<int> {
    if s == [] || y <= s[0] then [y] + s else [s[0]] + Insert(y, s[1..])
  }

  /** The years after `year_input.sort()`. */
  function SortYears(ys: seq<int>): seq<int> {
    if ys == [] then [] else Insert(ys[0], SortYears(ys[1..]))
  }

  /** A head no larger than the first element of an ascending tail keeps it ascending. */
  lemma AscendingCons(h: int, t: seq<int>)
    requires Ascending(t) && (t == [] || h <= t[0])
    ensures Ascending([h] + t)
  {
    var s := [h] + t;
    forall i, j | 0 <= i < j < |s|
      ensures s[i] <= s[j]
    {
      if i == 0 {
        assert s[j] == t[j - 1] && t[0] <= t[j - 1];
      } else {
        assert s[i] == t[i - 1] && s[j] == t[j - 1];
      }
    }
  }

  /** Inserting puts `y` or the old head first. */
  lemma InsertHead(y: int, s: seq<int>)
    ensures Insert(y, s) != []
    ensures Insert(y, s)[0] == y || (s != [] && Insert(y, s)[0] == s[0])
  {
  }

  lemma {:induction false} InsertAscending(y: int, s: seq<int>)
    requires Ascending(s)
    ensures Ascending(Insert(y, s))
  {
    if s == [] || y <= s[0] {
      AscendingCons(y, s);
    } else {
      assert Ascending(s[1..]) by {
        forall i, j | 0 <= i < j < |s[1..]| ensures s[1..][i] <= s[1..][j] {
          assert s[1..][i] == s[i + 1] && s[1..][j] == s[j + 1];
        }
      }
      InsertAscending(y, s[1..]);
      InsertHead(y, s[1..]);
      if |s| > 1 {
        assert s[1..][0] == s[1];
      }
      AscendingCons(s[0], Insert(y, s[1..]));
    }
  }

  lemma {:induction false} InsertPermutes(y: int, s: seq<int>)
    ensures multiset(Insert(y, s)) == multiset(s) + multiset{y}
  {
    if s != [] && y > s[0] {
      InsertPermutes(y, s[1..]);
      assert s == [s[0]] + s[1..];
    }
  }

  /** Sorting gives the same years in ascending order. */
  lemma {:induction false} SortYearsSpec(ys: seq<int>)
    ensures Ascending(SortYears(ys))
    ensures multiset(SortYears(ys)) == multiset(ys)
  {
    if ys != [] {
      SortYearsSpec(ys[1..]);
      InsertAscending(ys[0], SortYears(ys[1..]));
      InsertPermutes(ys[0], SortYears(ys[1..]));
      assert ys == [ys[0]] + ys[1..];
    }
  }

  /** Sorting changes no year's membership, so the year filter is the same before and after. */
  lemma SortKeepsMembership(ys: seq<int>, y: int)
    ensures y in SortYears(ys) <==> y in ys
  {
    SortYearsSpec(ys);
    assert y in multiset(SortYears(ys)) <==> y in multiset(ys);
  }

  /** `str(y)` for each year. */
  function Texts(ys: seq<int>): (ts: seq<string>)
    ensures |ts| == |ys|
  {
    seq(|ys|, i requires 0 <= i < |ys| => IntToString(ys[i]))
  }

  /** `', ' + t` for each text in turn. */
  function Middle(ts: seq<string>): string {
    if ts == [] then "" else ", " + ts[0] + Middle(ts[1..])
  }

  /** The English list of the texts: `" in A"`, `" in A and B"`, `" in A, B, and C"`; nothing for none. */
  function Phrase(ts: seq<string>): string {
    if |ts| == 0 then ""
    else if |ts| == 1 then " in " + ts[0]
    else if |ts| == 2 then " in " + ts[0] + " and " + ts[1]
    else " in " + ts[0] + Middle(ts[1..|ts| - 1]) + ", and " + ts[|ts| - 1]
  }

  /** The heading suffix for the selected years. */
  function YearPhrase(ys: seq<int>): string {
    Phrase(Texts(ys))
  }

  /** One more middle year appended. */
  lemma {:induction false} MiddleSnoc(ts: seq<string>, t: string)
    ensures Middle(ts + [t]) == Middle(ts) + ", " + t
  {
    if ts == [] {
      assert Middle([t]) == ", " + t + "";
    } else {
      assert (ts + [t])[0] == ts[0] && (ts + [t])[1..] == ts[1..] + [t];
      MiddleSnoc(ts[1..], t);
    }
  }

  /** One pass of the loop on lines 79-80: appending `", " + year` extends the middle by one year. */
  lemma MiddleStep(ts: seq<string>, i: nat, text: string)
    requires 1 <= i < |ts|
    requires text == " in " + ts[0] + Middle(ts[1..i])
    ensures text + ", " + ts[i] == " in " + ts[0] + Middle(ts[1..i + 1])
  {
    assert ts[1..i + 1] == ts[1..i] + [ts[i]];
    MiddleSnoc(ts[1..i], ts[i]);
    AppendAfter(" in " + ts[0], Middle(ts[1..i]), ", " + ts[i]);
  }

  /** Appending after a concatenation appends to its second part. */
  lemma AppendAfter(p: string, m: string, t: string)
    ensures p + m + t == p + (m + t)
  {
  }

  /** Line 81: appending `", and " + last year` completes the phrase. */
  lemma PhraseEnd(years: seq<int>, text: string)
    requires |years| > 2
    requires text == " in " + Texts(years)[0] + Middle(Texts(years)[1..|years| - 1])
    ensures text + ", and " + IntToString(years[|years| - 1]) == YearPhrase(years)
  {
  }

  /** Lines 73-83: the phrase built with `+=` in a loop over the middle years. */
  method YearText(years: seq<int>) returns (text: string)
    ensures text == YearPhrase(years)
  {
    if |years| == 1 {
      text := " in " + IntToString(years[0]);
    } else if |years| == 2 {
      text := " in " + IntToString(years[0]) + " and " + IntToString(years[1]);
    } else if |years| > 2 {
      text := " in " + IntToString(years[0]);
      assert Texts(years)[1..1] == [];
      var i := 1;
      while i < |years| - 1
        invariant 1 <= i <= |years| - 1
        invariant text == " in " + Texts(years)[0] + Middle(Texts(years)[1..i])
      {
        MiddleStep(Texts(years), i, text);
        text := text + ", " + IntToString(years[i]);
        i := i + 1;
      }
      PhraseEnd(years, text);
      text := text + ", and " + IntToString(years[|years| - 1]);
    } else {
      text := "";
    }
  }

  /** The phrase for no year, and for one. */
  lemma ShortPhrases()
    ensures Phrase([]) == ""
    ensures Phrase(["2020"]) == " in 2020"
  {
  }

  /** The phrase for two years. */
  lemma TwoYearPhrase()
    ensures Phrase(["2019", "2020"]) == " in 2019 and 2020"
  {
  }

  /** The phrase for three years, with the Oxford comma. */
  lemma ThreeYearPhrase()
    ensures Phrase(["2014", "2015", "2016"]) == " in 2014, 2015, and 2016"
  {
    var ts := ["2014", "2015", "2016"];
    assert ts[1..2] == ["2015"];
    MiddleOne("2015");
    assert Phrase(ts) == " in 2014" + ", 2015" + ", and 2016";
  }

  lemma MiddleOne(t: string)
    ensures Middle([t]) == ", " + t
  {
    assert Middle([t]) == ", " + t + "";
  }

  lemma {:induction false} MiddleIsJoin(ts: seq<string>, first: string)
    ensures first + Middle(ts) == Join([first] + ts, ", ")
    decreases |ts|
  {
    assert ([first] + ts)[0] == first && ([first] + ts)[1..] == ts;
    if ts != [] {
      MiddleIsJoin(ts[1..], ts[0]);
      assert [ts[0]] + ts[1..] == ts;
    }
  }

  /** Three or more years read `" in "`, the leading years joined by `", "`, then `", and "` and the last. */
  lemma OxfordComma(ts: seq<string>)
    requires |ts| > 2
    ensures Phrase(ts) == " in " + Join(ts[..|ts| - 1], ", ") + ", and " + ts[|ts| - 1]
  {
    MiddleIsJoin(ts[1..|ts| - 1], ts[0]);
    assert [ts[0]] + ts[1..|ts| - 1] == ts[..|ts| - 1];
  }

  /** The digit runs of a text, left to right; `cur` is the run being read. */
  function Runs(s: string, cur: string): seq<string> {
    if s == [] then (if cur == [] then [] else [cur])
    else if IsDigit(s[0]) then Runs(s[1..], cur + [s[0]])
    else (if cur == [] then [] else [cur]) + Runs(s[1..], [])
  }

  /** The numbers written in a text. */
  function Numbers(s: string): seq<string> {
    Runs(s, [])
  }

  predicate NoDigits(s: string) {
    forall i :: 0 <= i < |s| ==> !IsDigit(s[i])
  }

  lemma {:induction false} SkipNoDigits(sep: string, t: string)
    requires NoDigits(sep)
    ensures Runs(sep + t, []) == Runs(t, [])
  {
    if sep == [] {
      assert sep + t == t;
    } else {
      assert (sep + t)[0] == sep[0] && (sep + t)[1..] == sep[1..] + t;
      assert Runs(sep + t, []) == Runs(sep[1..] + t, []);
      SkipNoDigits(sep[1..], t);
    }
  }

  lemma {:induction false} TakeDigits(d: string, t: string, cur: string)
    requires AllDigits(d)
    ensures Runs(d + t, cur) == Runs(t, cur + d)
  {
    if d == [] {
      assert d + t == t && cur + d == cur;
    } else {
      assert (d + t)[0] == d[0] && (d + t)[1..] == d[1..] + t;
      TakeDigits(d[1..], t, cur + [d[0]]);
      assert cur + [d[0]] + d[1..] == cur + d;
    }
  }

  lemma EndRun(t: string, cur: string)
    requires cur != [] && (t == [] || !IsDigit(t[0]))
    ensures Runs(t, cur) == [cur] + Runs(t, [])
  {
  }

  /** A separator, a number and the rest read as that number and then the rest's numbers. */
  lemma Piece(sep: string, d: string, t: string)
    requires NoDigits(sep) && d != [] && AllDigits(d) && (t == [] || !IsDigit(t[0]))
    ensures Numbers(sep + d + t) == [d] + Numbers(t)
  {
    assert sep + d + t == sep + (d + t);
    SkipNoDigits(sep, d + t);
    TakeDigits(d, t, []);
    assert [] + d == d;
    EndRun(t, d);
  }

  /** Texts of numbers: non-empty runs of digits. */
  predicate Numerals(ts: seq<string>) {
    forall i :: 0 <= i < |ts| ==> ts[i] != [] && AllDigits(ts[i])
  }

  /** The separators of the phrase contain no digit. */
  lemma SeparatorsHaveNoDigits()
    ensures NoDigits(", ") && NoDigits(" in ") && NoDigits(" and ") && NoDigits(", and ")
  {
  }

  lemma {:induction false} MiddleNumbers(ts: seq<string>, t: string)
    requires Numerals(ts) && (t == [] || !IsDigit(t[0]))
    ensures Numbers(Middle(ts) + t) == ts + Numbers(t)
  {
    if ts != [] {
      var rest := Middle(ts[1..]) + t;
      assert Numerals(ts[1..]) by {
        forall i | 0 <= i < |ts[1..]| ensures ts[1..][i] != [] && AllDigits(ts[1..][i]) {
          assert ts[1..][i] == ts[i + 1];
        }
      }
      MiddleNumbers(ts[1..], t);
      if ts[1..] != [] {
        assert rest[0] == ',';
      }
      assert ts[0] != [] && AllDigits(ts[0]);
      assert rest == [] || !IsDigit(rest[0]);
      assert Middle(ts) + t == ", " + ts[0] + rest by {
        assert Middle(ts) == ", " + ts[0] + Middle(ts[1..]);
      }
      SeparatorsHaveNoDigits();
      Piece(", ", ts[0], rest);
      assert Numbers(Middle(ts) + t) == [ts[0]] + (ts[1..] + Numbers(t));
      assert [ts[0]] + (ts[1..] + Numbers(t)) == ts + Numbers(t);
    } else {
      assert Middle(ts) + t == t && ts + Numbers(t) == Numbers(t);
    }
  }

  /** Reading the numbers back out of the phrase gives the texts, each once and in order. */
  lemma PhraseNumbers(ts: seq<string>)
    requires Numerals(ts)
    ensures Numbers(Phrase(ts)) == ts
  {
    SeparatorsHaveNoDigits();
    if |ts| == 1 {
      Piece(" in ", ts[0], "");
      assert " in " + ts[0] + "" == Phrase(ts);
    } else if |ts| == 2 {
      Piece(" and ", ts[1], "");
      assert " and " + ts[1] + "" == " and " + ts[1];
      Piece(" in ", ts[0], " and " + ts[1]);
      assert Phrase(ts) == " in " + ts[0] + (" and " + ts[1]);
    } else if |ts| > 2 {
      PhraseNumbersLong(ts);
    }
  }

  /** The last year, after the Oxford comma. */
  lemma LastNumber(x: string)
    requires x != [] && AllDigits(x)
    ensures Numbers(", and " + x) == [x]
  {
    SeparatorsHaveNoDigits();
    Piece(", and ", x, "");
    assert ", and " + x + "" == ", and " + x;
  }

  /** The middle years and the last one. */
  lemma TailNumbers(mids: seq<string>, x: string)
    requires Numerals(mids) && x != [] && AllDigits(x)
    ensures Numbers(Middle(mids) + (", and " + x)) == mids + [x]
  {
    LastNumber(x);
    MiddleNumbers(mids, ", and " + x);
  }

  /** The long phrase regrouped as the first year and its tail. */
  lemma LongPhraseShape(ts: seq<string>)
    requires |ts| > 2
    ensures Phrase(ts) == " in " + ts[0] + (Middle(ts[1..|ts| - 1]) + (", and " + ts[|ts| - 1]))
  {
  }

  lemma PhraseNumbersLong(ts: seq<string>)
    requires Numerals(ts) && |ts| > 2
    ensures Numbers(Phrase(ts)) == ts
  {
    var n := |ts|;
    var mids := ts[1..n - 1];
    assert Numerals(mids) by {
      forall i | 0 <= i < |mids| ensures mids[i] != [] && AllDigits(mids[i]) {
        assert mids[i] == ts[i + 1];
      }
    }
    assert ts[n - 1] != [] && AllDigits(ts[n - 1]);
    TailNumbers(mids, ts[n - 1]);
    var mid := Middle(mids) + (", and " + ts[n - 1]);
    assert mid[0] == ',' by {
      if mids == [] {
        assert mid == ", and " + ts[n - 1];
      }
    }
    SeparatorsHaveNoDigits();
    Piece(" in ", ts[0], mid);
    LongPhraseShape(ts);
    assert [ts[0]] + (mids + [ts[n - 1]]) == ts;
  }

  /** Non-negative years are written as numerals. */
  lemma YearNumerals(ys: seq<int>)
    requires forall i :: 0 <= i < |ys| ==> ys[i] >= 0
    ensures Numerals(Texts(ys))
  {
  }

  /** A row passes every filter whose selection is non-empty. */
  predicate Selected(x: Incident, routes: seq<Cell>, causes: seq<Cell>, years: seq<int>) {
    (|routes| > 0 ==> x.route in routes) &&
    (|causes| > 0 ==> x.cause in causes) &&
    (|years| > 0 ==> x.year in years)
  }

  /**
   * Lines 44-60: the displayed table narrowed by each non-empty selection, in
   * the order route, cause, year, with the years sorted in place first.
   */
  method Narrow(df: seq<Incident>, routeInput: seq<Cell>, causeInput: seq<Cell>, yearInput: seq<int>)
    returns (migrants: seq<Incident>, years: seq<int>)
    ensures Ascending(years) && multiset(years) == multiset(yearInput)
    ensures IsSubsequence(migrants, df)
    ensures forall x :: x in migrants <==> x in df && Selected(x, routeInput, causeInput, yearInput)
    ensures forall x :: multiset(migrants)[x] == if Selected(x, routeInput, causeInput, yearInput) then multiset(df)[x] else 0
    ensures routeInput == [] && causeInput == [] && yearInput == [] ==> migrants == df
  {
    migrants := df;
    SubsequenceRefl(df);
    if |routeInput| > 0 {
      FilterStep(df, migrants, RouteIn(routeInput));
      migrants := Where(migrants, RouteIn(routeInput));
    }
    assert forall x :: multiset(migrants)[x] == if |routeInput| > 0 ==> x.route in routeInput then multiset(df)[x] else 0;
    if |causeInput| > 0 {
      FilterStep(df, migrants, CauseIn(causeInput));
      migrants := Where(migrants, CauseIn(causeInput));
    }
    assert forall x :: multiset(migrants)[x] == if (|routeInput| > 0 ==> x.route in routeInput) && (|causeInput| > 0 ==> x.cause in causeInput) then multiset(df)[x] else 0;
    years := yearInput;
    SortYearsSpec(yearInput);
    if |yearInput| > 0 {
      years := SortYears(yearInput);
      YearStep(df, migrants, years, yearInput);
      migrants := Where(migrants, YearIn(years));
    }
    SelectedMembership(migrants, df, routeInput, causeInput, yearInput);
  }

  /**
   * Lines 44-60 and 73-89: the displayed table narrowed by each non-empty
   * selection, the year phrase of the sorted years, and the statistics table
   * narrowed by the years alone.
   */
  method Sidebar(df: seq<Incident>, routeInput: seq<Cell>, causeInput: seq<Cell>, yearInput: seq<int>)
    returns (migrants: seq<Incident>, years: seq<int>, yearText: string, stats: seq<Incident>)
    ensures Ascending(years) && multiset(years) == multiset(yearInput)
    ensures IsSubsequence(migrants, df)
    ensures forall x :: x in migrants <==> x in df && Selected(x, routeInput, causeInput, yearInput)
    ensures forall x :: multiset(migrants)[x] == if Selected(x, routeInput, causeInput, yearInput) then multiset(df)[x] else 0
    ensures routeInput == [] && causeInput == [] && yearInput == [] ==> migrants == df
    ensures yearText == YearPhrase(years)
    ensures IsSubsequence(stats, df)
    ensures forall x :: x in stats <==> x in df && (|yearInput| > 0 ==> x.year in yearInput)
    ensures forall x :: multiset(stats)[x] == if |yearInput| > 0 ==> x.year in yearInput then multiset(df)[x] else 0
    ensures yearInput == [] ==> stats == df
  {
    migrants, years := Narrow(df, routeInput, causeInput, yearInput);
    yearText := YearText(years);
    SubsequenceRefl(df);
    if |years| > 0 {
      YearStep(df, df, years, yearInput);
      stats := Where(df, YearIn(years));
      assert forall x :: x in stats <==> multiset(stats)[x] > 0;
    } else {
      stats := df;
    }
  }

  /** One filter applied to a narrowing of `df`: what it keeps, in what order and how many times. */
  lemma FilterStep(df: seq<Incident>, rows: seq<Incident>, c: Criterion)
    requires IsSubsequence(rows, df)
    ensures IsSubsequence(Where(rows, c), df)
    ensures forall x :: multiset(Where(rows, c))[x] == if Matches(x, c) then multiset(rows)[x] else 0
  {
    WhereSubsequence(rows, c);
    SubsequenceTrans(Where(rows, c), rows, df);
    forall x ensures multiset(Where(rows, c))[x] == if Matches(x, c) then multiset(rows)[x] else 0 {
      WhereCount(rows, c, x);
    }
  }

  /** Rows counted as their selected copies in `df` are exactly the selected rows of `df`. */
  lemma SelectedMembership(rows: seq<Incident>, df: seq<Incident>, routes: seq<Cell>, causes: seq<Cell>, years: seq<int>)
    requires forall x :: multiset(rows)[x] == if Selected(x, routes, causes, years) then multiset(df)[x] else 0
    ensures forall x :: x in rows <==> x in df && Selected(x, routes, causes, years)
  {
    forall x ensures x in rows <==> x in df && Selected(x, routes, causes, years) {
      assert x in rows <==> multiset(rows)[x] > 0;
      assert x in df <==> multiset(df)[x] > 0;
    }
  }

  /** The year filter with the sorted selection counts rows as the unsorted selection would. */
  lemma YearStep(df: seq<Incident>, rows: seq<Incident>, years: seq<int>, yearInput: seq<int>)
    requires IsSubsequence(rows, df) && multiset(years) == multiset(yearInput)
    ensures IsSubsequence(Where(rows, YearIn(years)), df)
    ensures forall x :: multiset(Where(rows, YearIn(years)))[x] == if x.year in yearInput then multiset(rows)[x] else 0
  {
    FilterStep(df, rows, YearIn(years));
    forall x ensures Matches(x, YearIn(years)) <==> x.year in yearInput {
      assert x.year in multiset(years) <==> x.year in multiset(yearInput);
    }
  }

  /** The phrase for the sorted selection names every selected year once, in ascending order. */
  lemma SortedPhrase(yearInput: seq<int>)
    requires forall i :: 0 <= i < |yearInput| ==> yearInput[i] >= 0
    ensures Numbers(YearPhrase(SortYears(yearInput))) == Texts(SortYears(yearInput))
    ensures Ascending(SortYears(yearInput)) && multiset(SortYears(yearInput)) == multiset(yearInput)
  {
    SortYearsSpec(yearInput);
    var s := SortYears(yearInput);
    forall i | 0 <= i < |s|
      ensures s[i] >= 0
    {
      assert s[i] in multiset(yearInput);
    }
    YearNumerals(s);
    PhraseNumbers(Texts(s));
  }
}
