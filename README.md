# Missing Migrants: the cleaning script and the dashboard sidebar

This project models two parts of the Missing Migrants dashboard:

- **The cleaning script** (`process_new_data.py`). It loads the new export of the Missing Migrants Project, derives four columns (X, Y, Season, Cause of Death Abbreviation), renames four labels back to the old format, keeps the old column order and drops rows without both coordinates.
- **The sidebar of the home page** (`src/Home.py`). It narrows the incident table by route, cause and year, sorts the chosen years and renders them as an English list (" in 2014, 2015, and 2016") for the statistics heading.

The modules are:

| module | file | what it holds |
|---|---|---|
| `Wrappers` | wrappers.dfy | `Option` and `Result` |
| `Seqs` | seqs.dfy | duplicate-free sequences, subsequences |
| `PyStr` | pystr.dfy | the Python `str` methods the code calls: `strip`, `lower`, `title`, `split`, `in`, `join`, `str()` of an integer (ASCII) |
| `PyFloat` | pyfloat.dfy | which texts `float()` accepts |
| `CoordinateExtraction` | coordinates.dfy | `extract_coordinates`, with the POINT regex and `re.search` |
| `Seasons` | seasons.dfy | `get_season` |
| `Causes` | causes.dfy | `get_cause_abbreviation` |
| `Frames` | frames.dfy | the pandas operations the script uses: column read and write, `rename`, `df[list]`, `dropna(subset=…)` |
| `NewData` | newdata.dfy | the script body, with the loaded table as a `DataFrame` class updated in place |
| `Home` | home.dfy | the sidebar filters, the year sort, the year phrase and the statistics table |

A cell is `Option<string>`, where `None` is pandas' missing value (NaN). A number stays as the text `float()` accepted. A table is a list of column labels plus rows of cells, addressed by position. Labels may repeat (after a rename, say), and `df[labels]` then picks every column carrying a label, as pandas does.

**The script body.**
- The column writes on lines 82-91 happen in place on the loaded table: `NewData.DataFrame` holds its labels and rows as fields, and `SetColumn` reassigns them.
- Lines 95-121 build new tables, so they are functions on values.
- `NewData.ProcessNewData` runs the script's lines in order. It ends in a `Result`:
  - a missing input column raises `KeyError(label)`;
  - a POINT token that `float()` rejects raises `ValueError(token)`.

**Error paths of the script.**
- The `float()` calls of the POINT branch of `extract_coordinates` (line 16) sit outside the `try`. A token that the pattern `[0-9.-]+` admits but `float()` rejects (`1.2.3`, `-`, `1-2`) raises `ValueError`, and that aborts the whole script. See `CoordinateExtraction.PointFormRaises` and `CoordinateExtraction.ExampleBadPoint`.
- Line 77 reads `df['Incident Year']` for a log message before any column is derived. A table without that column therefore fails with `KeyError('Incident Year')` before anything else happens.

## Model

| member | source | states |
|---|---|---|
| CoordinateExtraction.MatchPoint | process_new_data.py:14 | `POINT\s*\(([0-9.-]+)\s+([0-9.-]+)\)` matched at the start of a text, giving its two groups; `PointTextMatches` and `MatchIsPointText` state which texts match |
| CoordinateExtraction.SearchPoint | process_new_data.py:14-15 | `re.search` of that pattern; `SearchIsLeftmost` and `SearchFailsIffNoMatch` state that it is the leftmost match |
| CoordinateExtraction.CommaForm | process_new_data.py:18-28 | the `lat, lon` branch with its `except`; `CommaFormSwaps`, `CommaFormRejects` and `CommaFormShape` state what it gives |
| CoordinateExtraction.ExtractCoordinates | process_new_data.py:8-28 | a missing cell gives no coordinates; an exception happens only when a POINT match exists and is a `ValueError` on a token `float()` rejects; X and Y are both present or both absent; present ones are float literals |
| CoordinateExtraction.ExtractWithMatch | process_new_data.py:14-16 | with a POINT match, the comma form is never consulted: the first group is converted first, then the second, and they come back unswapped |
| CoordinateExtraction.ExtractWithoutMatch | process_new_data.py:13-28 | without a POINT match, the result is the comma form's |
| CoordinateExtraction.PointFormFirst | process_new_data.py:13-16 | text holding `POINT\s*(a\s+b)` after a POINT-free prefix gives X = a, Y = b when both parse |
| CoordinateExtraction.PointFormRaises | process_new_data.py:14-16 | the same text with a group `float()` rejects raises `ValueError`, naming the first bad group |
| CoordinateExtraction.CommaFormSwaps | process_new_data.py:14-24 | `lat,lon` with one comma and two parsable stripped fields gives X = lon and Y = lat; such text can never hold a POINT match |
| CoordinateExtraction.CommaFormRejects | process_new_data.py:19-28 | without a POINT match, a comma count other than one, or a field `float()` rejects, gives no coordinates (the `except` branch) |
| CoordinateExtraction.CommaFormShape | process_new_data.py:20-24 | conversely, comma-form coordinates come from the two sides of the only comma, swapped |
| CoordinateExtraction.PointTextMatches | process_new_data.py:14 | the pattern matched at an occurrence of `POINT\s*\(…\s+…\)` reads exactly its two number tokens, whatever the whitespace |
| CoordinateExtraction.MatchIsPointText | process_new_data.py:14 | conversely, every match is such an occurrence |
| CoordinateExtraction.SearchIsLeftmost | process_new_data.py:14 | `re.search` returns the match at the leftmost position where one starts |
| CoordinateExtraction.SearchFailsIffNoMatch | process_new_data.py:14-15 | the search fails exactly when no position starts a match |
| CoordinateExtraction.SearchFindsPointText | process_new_data.py:14-16 | a successful search reads an occurrence of the pattern inside the cell text |
| CoordinateExtraction.NoPointNoMatch | process_new_data.py:14-15 | text without the word POINT never matches |
| CoordinateExtraction.PointFormFound | process_new_data.py:14 | the search finds the POINT text after a POINT-free prefix |
| CoordinateExtraction.ExamplePoint | process_new_data.py:13-16 | `POINT (-10.5 35.2)` gives X = -10.5, Y = 35.2 |
| CoordinateExtraction.ExampleBadPoint | process_new_data.py:14-16 | `POINT (1.2.3 4)` raises `ValueError('1.2.3')` |
| CoordinateExtraction.ExampleLatLon | process_new_data.py:18-24 | `35.2, -10.5` gives X = -10.5, Y = 35.2 |
| CoordinateExtraction.ExampleLiteralB | process_new_data.py:16 | `float('-10.5')` returns |
| CoordinateExtraction.ExampleNotLiteral | process_new_data.py:16 | `float('1.2.3')` raises |
| PyFloat.UnsignedPlain | process_new_data.py:16 | text without surrounding space, sign or capitals is its own normalised literal |
| PyFloat.UnsignedNegated | process_new_data.py:16 | a leading minus is dropped before the literal is checked |
| PyFloat.IsFloatLiteral | process_new_data.py:16-23 | the texts `float()` accepts: optional whitespace and sign around `inf`, `infinity`, `nan` in any case, or a decimal literal with optional fraction, exponent and digit-grouping underscores |
| PyFloat.LiteralLacksP | process_new_data.py:14-23 | no text `float()` accepts holds a capital `P`, so a parsable field never contains the word POINT |
| PyStr.Strip | process_new_data.py:22-23 | `str.strip()` on ASCII whitespace, as here and on line 35; `StripAt` and `StripEnds` state what it removes |
| PyStr.Lower | process_new_data.py:57 | `str.lower()` on ASCII letters, as here and on line 35; `LowerIdempotent` states it |
| PyStr.Split | process_new_data.py:20 | `str.split(',')`; `SplitCount`, `SplitPiecesLackSeparator` and `SplitJoin` state it |
| PyStr.Title | process_new_data.py:72 | `str.title()`: a letter is upper-cased exactly when no letter precedes it in its run, and lower-cased otherwise |
| PyStr.StripAt | process_new_data.py:22-23 | `strip()` keeps one block of the text and removes only whitespace before and after it |
| PyStr.StripEnds | process_new_data.py:22-23 | `strip()` gives the empty text exactly for all-whitespace text, and otherwise text that starts and ends with a non-space |
| PyStr.SplitCount | process_new_data.py:20-21 | `split(',')` gives one more piece than there are commas |
| PyStr.SplitPiecesLackSeparator | process_new_data.py:20 | no piece holds a comma |
| PyStr.SplitJoin | process_new_data.py:20 | joining the pieces with the comma gives the text back |
| PyStr.LowerIdempotent | process_new_data.py:35 | lower-casing twice is lower-casing once |
| PyStr.TitleKeepsLowerCase | process_new_data.py:72 | `title()` changes only case |
| PyStr.TitleIgnoresCase | process_new_data.py:72 | `title()` of the lower-cased text is `title()` of the text |
| Seasons.MonthKey | process_new_data.py:35 | `str(month).strip().lower()` on the cell's text; `SeasonFoundIffToken` and `GetSeasonIsCalendar` state the lookup on it |
| Seasons.GetSeason | process_new_data.py:30-50 | `get_season`: missing for a missing cell, otherwise the season whose list holds the stripped, lower-cased text; `GetSeasonIsCalendar` and `SeasonOfToken` state its meaning |
| Seasons.GetSeasonIsCalendar | process_new_data.py:30-50 | a month gets a season exactly when its stripped, lower-cased text names a calendar month (English name or number without a leading zero), and it is that month's meteorological season |
| Seasons.WinterIsCalendar | process_new_data.py:37-39 | the winter tokens are exactly the keys of December, January and February |
| Seasons.SpringIsCalendar | process_new_data.py:40-42 | the spring tokens are exactly the keys of March to May |
| Seasons.SummerIsCalendar | process_new_data.py:43-45 | the summer tokens are exactly the keys of June to August |
| Seasons.FallIsCalendar | process_new_data.py:46-48 | the fall tokens are exactly the keys of September to November |
| Seasons.TokensDistinct | process_new_data.py:38-47 | the 24 tokens are all different, so the four lists are disjoint and the order of the tests does not matter |
| Seasons.SeasonFoundIffToken | process_new_data.py:32-50 | a present cell gets a season exactly when its key is one of the 24 tokens |
| Seasons.SeasonOfToken | process_new_data.py:35-50 | each season is given exactly to the keys in its own list |
| Seasons.PaddedMonthHasNoSeason | process_new_data.py:38 | `01` gets no season |
| Seasons.ZeroNotToken | process_new_data.py:38-50 | no key starting with `0` gets a season |
| Seasons.NumberExample | process_new_data.py:38-39 | `12` is winter |
| Seasons.NameExample | process_new_data.py:35-45 | `July` is summer once lower-cased |
| Causes.GetCauseAbbreviation | process_new_data.py:52-72 | `get_cause_abbreviation`: `Unknown` for a missing cell, otherwise the chain on the lower-cased text; `CauseFollowsRuleOrder` states its meaning |
| Causes.Chain | process_new_data.py:59-72 | the `if`/`elif` chain as written, test by test |
| Causes.FirstRuleIsFirst | process_new_data.py:59-70 | the rule lookup fails exactly when no rule's word occurs, and otherwise answers with a selecting rule that no earlier rule precedes |
| Causes.CauseFollowsRuleOrder | process_new_data.py:52-72 | the `if`/`elif` chain on the lower-cased cell is the first-matching-rule lookup over the six buckets, with the title-case fallback |
| Causes.PriorityOrder | process_new_data.py:59-70 | the first selecting bucket decides |
| Causes.DrowningComesFirst | process_new_data.py:59-60 | text mentioning drowning is a drowning, whatever else it mentions |
| Causes.DrownedAfterViolence | process_new_data.py:59-66 | `drowned after violence` mentions violence yet is a drowning |
| Causes.FallbackKeepsText | process_new_data.py:71-72 | the fallback differs from the lower-cased cell only in case |
| Causes.FallbackIsTitled | process_new_data.py:72 | the fallback is already in title case |
| Causes.FallbackIsStable | process_new_data.py:57-72 | abbreviating a fallback label again gives it back |
| Causes.CauseIdempotent | process_new_data.py:57-72 | abbreviating the abbreviation of any present cell gives it back: each of the six labels is its own abbreviation, and so is every fallback; the one exception is the missing cell, which becomes `Unknown` and then `Mixed or unknown` |
| Causes.MixedLacksDrown | process_new_data.py:59-70 | `mixed or unknown` holds every letter of `drown` but not the word, so that label is not a drowning |
| Causes.LabelsAreSelected | process_new_data.py:55-70 | each fixed label, lower-cased, is selected by some rule, so it is never a fallback |
| Causes.FallbackIsNoLabel | process_new_data.py:59-72 | a fallback is never one of the fixed labels |
| Causes.SelectedByPrefix | process_new_data.py:59-70 | text starting with a rule's word is selected |
| Frames.LabelIndex | process_new_data.py:77-91 | the first position holding the label, or the column count when none does |
| Frames.ColumnOf | process_new_data.py:77-91 | `df[name]` fails with `KeyError(name)` exactly when the label is absent, and is otherwise one cell per row |
| Frames.WithColumn | process_new_data.py:82-91 | `df[name] = values` keeps the table rectangular and the labels, adding the name at the end when it is new |
| Frames.ReadAfterWrite | process_new_data.py:82-91 | reading a column just written gives the values written |
| Frames.WriteKeepsOthers | process_new_data.py:82-91 | a write changes no other column |
| Frames.WriteMembership | process_new_data.py:82-91 | after a write the labels are the old ones plus the name |
| Frames.WriteKeepsDistinct | process_new_data.py:82-91 | a write adds no duplicate label |
| Frames.Rename | process_new_data.py:95-100 | `rename` keeps the rows and maps each label through the rename table |
| Frames.RenameRemovesOldLabels | process_new_data.py:95-100 | no renamed-from label remains |
| Frames.RenameKeepsDistinct | process_new_data.py:95-100 | distinct labels stay distinct when no label is renamed onto one already present |
| Frames.RenameMembership | process_new_data.py:95-100 | a label after the rename is the image of one before |
| Frames.RenameKeepsColumn | process_new_data.py:95-100 | a column the table neither renames from nor onto is untouched |
| Frames.RenameCollision | process_new_data.py:95-116 | a table already holding `Reported Month` beside `Month` ends with that label twice, and `df[...]` then selects both |
| Frames.ColumnsToKeep | process_new_data.py:115 | the comprehension over `columns_order`; `KeepIsSubsequence`, `KeepMembership` and `KeepIsDistinct` state that it keeps, in order and once each, the labels present in the table |
| Frames.KeepIsSubsequence | process_new_data.py:115 | the kept labels follow the old column order |
| Frames.KeepMembership | process_new_data.py:115 | a label is kept exactly when it is in the order and in the table |
| Frames.ColumnsOrderDistinct | process_new_data.py:103-112 | the old column order lists no label twice |
| Frames.KeepIsDistinct | process_new_data.py:103-115 | the kept labels have no duplicates |
| Frames.Select | process_new_data.py:116 | `df[labels]` keeps the table rectangular and the row count |
| Frames.SelectColumns | process_new_data.py:115-116 | with distinct labels, all present, `df[labels]` has exactly those labels in that order |
| Frames.SelectCell | process_new_data.py:115-116 | the cell of a selected column is the one of the source column |
| Frames.SelectHasNoExtraColumns | process_new_data.py:116 | only labels asked for are selected |
| Frames.DropNA | process_new_data.py:121 | `dropna` keeps the labels and the rectangle |
| Frames.DropPartitions | process_new_data.py:120-122 | kept and dropped rows add up to all rows, as multisets too; kept rows are complete on the subset, dropped rows are not |
| Frames.DropKeepsOrder | process_new_data.py:121 | surviving rows keep their order |
| Frames.DropKeepsComplete | process_new_data.py:121 | on a table already complete on the subset, nothing is dropped |
| NewData.ExtractAll | process_new_data.py:81 | `apply(extract_coordinates)` gives one result per cell when no cell raises |
| NewData.ExtractAllSucceeds | process_new_data.py:81 | the column converts exactly when no cell raises |
| NewData.ExtractAllValues | process_new_data.py:81 | each row holds the coordinates of its own cell |
| NewData.ExtractAllFirstError | process_new_data.py:81 | on failure, the exception is the one of the first cell that raises |
| NewData.AsCell | process_new_data.py:82-83 | a float column stores a parsed NaN as missing and every other value as it is |
| NewData.XColumn | process_new_data.py:82 | each row holds the X coordinate of its own cell, with a parsed NaN stored as missing |
| NewData.YColumn | process_new_data.py:83 | each row holds the Y coordinate of its own cell, with a parsed NaN stored as missing |
| NewData.SeasonColumn | process_new_data.py:87 | each row holds the season name of its month, or missing |
| NewData.CauseColumn | process_new_data.py:91 | each row holds the abbreviation of its cause |
| NewData.Derive | process_new_data.py:77-91 | the in-place writes keep the table rectangular, with the same rows |
| NewData.LaterSteps | process_new_data.py:85-91 | after the coordinates, the run goes on exactly when `Month` and `Cause of Death` exist, and otherwise fails on the first missing one |
| NewData.StepsReadInputs | process_new_data.py:81-91 | the `Month` and `Cause of Death` cells the later steps read are the input's |
| NewData.NormalizeSucceeds | process_new_data.py:77-122 | the script runs to the end exactly when its four input columns exist and no coordinate cell raises |
| NewData.NormalizeFailure | process_new_data.py:77-91 | an abort is a `KeyError` on one of the four input labels, absent from the table, or a `ValueError` on a token `float()` rejects |
| NewData.WrittenColumns | process_new_data.py:81-91 | after the writes, X, Y, Season and the abbreviation hold the cells computed from the input's Coordinates, Month and Cause of Death; every other column is unchanged |
| NewData.WrittenLabels | process_new_data.py:82-91 | the labels after the writes are the input's plus the four new ones, still distinct |
| NewData.RenamedLabels | process_new_data.py:95-100 | the renamed labels after the writes are the input's renamed labels plus the four new ones |
| NewData.WrittenNoClash | process_new_data.py:82-100 | the new labels are never renamed onto, so the writes introduce no rename clash |
| NewData.ProjectColumns | process_new_data.py:103-116 | with distinct renamed labels, the projection has exactly the kept labels |
| NewData.CompleteRun | process_new_data.py:77-121 | for distinct input labels with no label renamed onto one already present: a complete run, read through its intermediate cells (the coordinates extracted, the derived table, its X and Y columns, duplicate-free renamed labels) |
| NewData.Project | process_new_data.py:95-116 | the rename, then `df[columns_to_keep]`; `ProjectColumns` and `ProjectedCoordinate` state what it keeps |
| NewData.Finish | process_new_data.py:95-121 | the rename, projection and `dropna(subset=['X', 'Y'])` |
| NewData.Normalize | process_new_data.py:77-122 | the whole script body on a table, ending in a table or the exception; `NormalizeSucceeds`, `NormalizeFailure`, `NormalizeColumns` and `NormalizeRows` state its meaning |
| NewData.NormalizeColumns | process_new_data.py:95-121 | the output labels follow the old order without duplicates; they are exactly the old-format labels the renamed input has or the script added; the four new labels are always there |
| NewData.NormalizeRows | process_new_data.py:81-122 | every output row has both coordinates; the rows keep their order; the rows removed are exactly those whose cell gave no X or Y |
| NewData.CountDropped | process_new_data.py:120-122 | the rows dropped number as many as the cells that gave no location |
| NewData.ProjectedRowComplete | process_new_data.py:116-121 | a projected row has both coordinates exactly when its X and Y cells are present |
| NewData.DataFrame.constructor | process_new_data.py:76 | the table `read_csv` returns, with distinct labels |
| NewData.DataFrame.Column | process_new_data.py:77-91 | `df[name]` on the object's current state |
| NewData.DataFrame.SetColumn | process_new_data.py:82-91 | `df[name] = values` updates the object in place |
| NewData.ProcessNewData | process_new_data.py:74-122 | runs the script's lines on the loaded table; the table ends in the derived state, and the output is the renamed, projected and filtered table, or the exception |
| Home.Where | src/Home.py:44-60 | `rows[rows[field].isin(selection)]`, with a missing value matching a missing value |
| Home.WhereCount | src/Home.py:44-60 | a filter keeps every copy of a matching row and drops every copy of the others |
| Home.WhereMembership | src/Home.py:44-60 | an `isin` filter keeps a row exactly when its field is among the selected values (`WhereCount` gives the number of copies) |
| Home.WhereSubsequence | src/Home.py:44-60 | a filter keeps the order of the rows |
| Home.WhereAllMatch | src/Home.py:44-60 | a filter every row passes keeps the table as it is |
| Home.SortYears | src/Home.py:58 | `year_input.sort()` as insertion into a sorted list; `SortYearsSpec` states it is an ascending permutation |
| Home.SortYearsSpec | src/Home.py:58 | `year_input.sort()` gives an ascending permutation of the selected years |
| Home.SortKeepsMembership | src/Home.py:58 | sorting keeps the same years |
| Home.YearPhrase | src/Home.py:73-83 | the heading suffix chosen by the number of years; `ShortPhrases`, `TwoYearPhrase`, `OxfordComma` and `PhraseNumbers` state its meaning |
| Home.Phrase | src/Home.py:73-83 | the phrase chosen by the number of texts; `ShortPhrases`, `TwoYearPhrase`, `OxfordComma` and `PhraseNumbers` state its meaning |
| Home.YearText | src/Home.py:73-83 | the loop's `+=` builds the year phrase |
| Home.ShortPhrases | src/Home.py:73-74 | no year gives the empty text; one year gives ` in 2020` |
| Home.TwoYearPhrase | src/Home.py:75-76 | two years give ` in 2019 and 2020` |
| Home.ThreeYearPhrase | src/Home.py:77-81 | three years give ` in 2014, 2015, and 2016` |
| Home.MiddleIsJoin | src/Home.py:79-80 | the middle of the loop is a comma join |
| Home.OxfordComma | src/Home.py:77-81 | with three or more years, the phrase is the comma join of all but the last, then `, and` and the last |
| Home.PhraseNumbers | src/Home.py:73-83 | the digit runs read back from the phrase are the year texts, in order: no year is lost, repeated or reordered |
| Home.YearNumerals | src/Home.py:74-81 | `str()` of a non-negative year is digits |
| Home.Narrow | src/Home.py:44-60 | the map table keeps each row matching every non-empty selection as many times as `df` holds it, and no other row, in order; all rows when nothing is selected; the years are sorted |
| Home.Sidebar | src/Home.py:44-89 | the map table keeps each row matching every non-empty selection as many times as `df` holds it, and no other row, in order, and all rows when nothing is selected; the years are sorted; the heading is their phrase; the statistics table keeps each row of a selected year as many times as `df` holds it, in order, and is the whole table when no year is selected |
| Home.SortedPhrase | src/Home.py:58-83 | the phrase of the sorted selection reads back as the sorted years, an ascending permutation of the selection |

## Left out

- Reading and writing CSV files, the `print` messages and the `value_counts` summary at the end of the script are I/O; they are not modelled. The table `read_csv` returns is the input of `NewData.ProcessNewData`.
- The value of a float is not modelled. A parsed coordinate stays the text `float()` accepted. The output therefore holds `'1e1'` where pandas would hold 10.0; which texts parse, and NaN, are modelled.
- ASCII only. `strip`, `lower` and `title` handle ASCII whitespace and letters. Python's Unicode case mapping and whitespace classes are not modelled.
- A cell of the Month or Cause of Death column is taken as its `str()` text. The number 12.0 that pandas reads from a numeric month column prints as `12.0` and gets no season; the model sees only the text.
- Incident year is an integer in the sidebar model. Its text is `str()` of an integer; negative years are outside `Home.PhraseNumbers` / `Home.SortedPhrase`.
- Home.SortedPhrase: requires non-negative years, because the digit-run reading cannot see a minus sign.
- NewData.NormalizeColumns: requires distinct input labels with no label renamed onto one already present (`NoRenameClash`). `Frames.RenameCollision` shows what happens otherwise.
- NewData.NormalizeRows: requires distinct input labels with no label renamed onto one already present. The proof finds the X and Y cells of the projected table through its duplicate-free labels; with a clash, `df[columns_to_keep]` takes the clashing label's columns twice, and that case is not proved.
- `year_input.sort()` sorts the widget's list in place. The model rebinds the name to a sorted copy (`Home.SortYears`), because nothing else holds that list.
- `groupby(...).sum()`, `prettify`, the metrics, map, charts and the other dashboard pages are display code outside the sidebar's filtering; they are not modelled.
- The `show_route_death` flag set on `src/Home.py:46` is never read on the page and is not modelled.
- The rename of X and Y to lon and lat on `src/Home.py:30` and the `st.cache` loader are not modelled: the sidebar model works on the three fields it filters.
