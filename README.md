# ESG wide-to-long transfer, modelled in Dafny

`0421Transfer/transfer.py` reads a company export in which every company is
one row. Each row holds five years of three measures side by side: an ESG
score and two SDG flags (SDG 3 and SDG 9), in columns FY0, FY-1, …, FY-4. The
script turns this into a long table with one row per company and year.

The script runs these steps, and this project models each of them:

1. **Clean.** Drop the rows without an Identifier, then trim the column
   names.
2. **Reshape.** For each of the five years, take a fresh copy of the
   cleaned table and add its ESG, ESG3 and ESG9 columns:
   - ESG is the year's score, read as a number;
   - ESG3 and ESG9 are the year's flags as upper-case text, where exactly
     "FALSE" and "NAN" become missing.

   Then drop every row with a missing value in one of those three columns,
   and label the rows with the year.
3. **Merge.** Concatenate the five year frames, FY0 first.
4. **Sort.** Order the rows by Identifier, then by an explicit year rank
   (FY0 = 0 … FY-4 = 4). This is not the text order of the labels.
5. **Project.** Keep the company's own columns without the fifteen
   per-year score columns, followed by YEAR, ESG, ESG3, ESG9.

How the model represents this:

- **Tables are values.** A `Frame` is a list of column names and a list of
  rows. A row maps column names to cells. A cell is missing, or holds text,
  a number or a boolean. A pandas statement that builds a new table becomes
  a function from the old table to the new one.
- **The year loop is a method.** `Reshaping.ReshapeLoop` reassigns its
  local tables step by step, as the script's `for` loop does. It is proved
  to return what the five passes (`Passes`) make, one pass per year,
  stopping at the first exception. `Reshaping.PassesSpec` proves that this
  is a declarative specification (`ReshapeSpec`). The specification says
  which rows survive for which year and what they hold, and which
  KeyError the reshape raises.
- **`Pipeline.Run`** runs the whole script step after step. It is proved
  equal to `Pipeline.Transfer`, which is the script as one function.
- **The end-to-end lemmas** (`TransferErrors`, `TransferOutput`) state:
  - when the script raises an exception, and which one;
  - what the written table contains;
  - what order its rows are in.

Module layout:

| file | module | models |
|---|---|---|
| `wrappers.dfy` | `Wrappers` | `Option`, `Result` |
| `text.dfy` | `Text` | `str.strip`, `str.upper`, the order on strings |
| `frames.dfy` | `Frames` | the DataFrame operations the script uses |
| `cells.dfy` | `Cells` | `to_numeric`, the flag normalisation, the order of one sort key |
| `layout.dfy` | `Layout` | the column lists, year labels and year ranks |
| `sorting.dfy` | `Sorting` | `sort_values` by several keys |
| `cleaning.dfy` | `Cleaning` | step 1 |
| `reshaping.dfy` | `Reshaping` | step 2 |
| `ordering.dfy` | `Ordering` | steps 4 and 5 |
| `pipeline.dfy` | `Pipeline` | step 3 and the whole script |

Two parts of pandas are not re-implemented. The `Coercion` parameter stands
in for them:

- how `pd.to_numeric` reads one string;
- how `str()` writes one floating-point number.

Every statement about the output holds for any choice of these two
functions.

## Model

| member | source | states |
|---|---|---|
| Text.Lead | 0421Transfer/transfer.py:9 | the leading whitespace run: everything before it is whitespace and the next character is not |
| Text.Trail | 0421Transfer/transfer.py:9 | the trailing whitespace run: everything after it is whitespace and the character before it is not |
| Text.Strip | 0421Transfer/transfer.py:9 | str.strip (rstrip after lstrip) keeps one slice of the name: everything cut off at either end is whitespace, and the slice neither starts nor ends with whitespace |
| Text.StripUnchanged | 0421Transfer/transfer.py:9 | a name with no whitespace at either end is left as it is |
| Text.Upper | 0421Transfer/transfer.py:23-24 | upper-casing keeps the length and maps every character through the ASCII upper-case map |
| Text.UpperChar | 0421Transfer/transfer.py:23-24 | a lower-case ASCII letter becomes its upper-case letter and every other character stays |
| Text.LexLeTransitive | 0421Transfer/transfer.py:36 | the order on Identifier text is transitive (with LexLeTotal and LexLeAntisymmetric: a total order) |
| Text.LexLeTotal | 0421Transfer/transfer.py:36 | any two Identifier texts are comparable |
| Text.LexLeAntisymmetric | 0421Transfer/transfer.py:36 | two texts that sort before each other are equal |
| Frames.Column | 0421Transfer/transfer.py:22-24 | df[c] has one cell per row, the row's cell under c |
| Frames.WithColumn | 0421Transfer/transfer.py:22-24 | df[c] = col overwrites c in place or appends it as the last column; every row gets its own new cell and keeps all other cells |
| Frames.WithConstant | 0421Transfer/transfer.py:27 | every row gets the same value under c; the column order follows the assignment rule |
| Frames.KeepComplete | 0421Transfer/transfer.py:8 | a row is kept exactly when it is an input row with every listed cell present; there are never more rows than before |
| Frames.CompletePositions | 0421Transfer/transfer.py:8 | the positions of the rows with every listed cell present: each such position exactly once, in increasing order |
| Frames.KeepCompleteAt | 0421Transfer/transfer.py:8 | the k-th kept row is the row at the k-th complete position, so each complete row is kept once and the rows keep their order |
| Frames.DropNa | 0421Transfer/transfer.py:25 | dropna(subset) keeps the header, and its k-th row is the input row at the k-th position whose listed cells are all present: those rows, each once, in their order |
| Frames.Without | 0421Transfer/transfer.py:36 | dropping a name leaves exactly the other names, distinct when they were distinct, and changes nothing when the name is absent |
| Frames.WithoutConcat | 0421Transfer/transfer.py:36 | dropping a name from two runs of names joined is dropping it from each, so the other names keep their order |
| Frames.DropColumn | 0421Transfer/transfer.py:36 | drop(columns=c) removes c from the header and from every row, and keeps all other cells |
| Frames.AllRowsOfFive | 0421Transfer/transfer.py:31 | concatenating five frames gives their rows one frame after the other |
| Frames.Concat | 0421Transfer/transfer.py:31 | pd.concat keeps the first frame's header and all rows in frame order |
| Frames.FirstMissingAt | 0421Transfer/transfer.py:22-24 | the column reported missing is the first absent one in reading order |
| Frames.FirstMissing | 0421Transfer/transfer.py:22-24 | no column is reported exactly when every name of the order is a column; a reported name is in the order and is not a column |
| Frames.Select | 0421Transfer/transfer.py:42 | df[order] fails exactly when a listed name is absent, with KeyError for such a name; otherwise the header is the order and every line holds the row's cells under those names |
| Frames.Fields | 0421Transfer/transfer.py:42 | a written line has one cell per header name, the row's cell under that name |
| Frames.RowOf | 0421Transfer/transfer.py:42 | a line read back by name has exactly the header's names |
| Frames.FieldsRead | 0421Transfer/transfer.py:42 | a written line read back by column name gives the row's cell for every name in the header and nothing else |
| Cells.ToNumeric | 0421Transfer/transfer.py:22 | to_numeric(errors='coerce') is missing exactly for a missing cell or unreadable text; a result is never text; numbers and booleans pass unchanged; text becomes the number it reads as |
| Cells.AsStr | 0421Transfer/transfer.py:23-24 | astype(str) writes a missing cell as "nan" and booleans as "True"/"False" |
| Cells.Flag | 0421Transfer/transfer.py:23-24 | the flag is missing exactly when the upper-cased text is "FALSE" or "NAN"; otherwise it is that upper-cased text, character by character |
| Cells.FlagNonText | 0421Transfer/transfer.py:23-24 | a missing cell and a False boolean never survive; a True boolean survives as "TRUE" |
| Cells.FlagMissingCases | 0421Transfer/transfer.py:23-24 | text survives exactly when its upper-case form is neither "FALSE" nor "NAN", and then as that form |
| Cells.FlagLookalikes | 0421Transfer/transfer.py:23-24 | text that only looks false survives: "No" as "NO", and " false" (the match does not trim) as " FALSE" |
| Cells.FlagExamples | 0421Transfer/transfer.py:23-24 | the match is exact: "True" survives as "TRUE", "0" survives, and "false" does not |
| Cells.FlagIdempotent | 0421Transfer/transfer.py:23-24 | normalising a surviving flag again leaves it unchanged |
| Cells.UpperIdempotent | 0421Transfer/transfer.py:23-24 | upper-casing twice is upper-casing once |
| Cells.CellLeTransitive | 0421Transfer/transfer.py:36 | the order of one sort key, with missing values last, is transitive (with CellLeTotal: a total preorder) |
| Cells.CellLeTotal | 0421Transfer/transfer.py:36 | any two cells of one sort key are comparable |
| Layout.AccessAt | 0421Transfer/transfer.py:12-14 | the reshape reads 15 columns, and year i's three columns sit at positions 3i, 3i+1 and 3i+2 of the reading order |
| Layout.LayoutFacts | 0421Transfer/transfer.py:12-15 | five columns per group and five labels; no score column is a column the script adds, sorts by or drops rows on; label i has rank i; the labels are distinct |
| Layout.TriadFresh | 0421Transfer/transfer.py:12-14 | no score column is named ESG, ESG3, ESG9 or YEAR, so the assignments never overwrite a column the pass still reads |
| Layout.NamesFresh | 0421Transfer/transfer.py:34-41 | YEAR_order and Identifier are neither score columns nor output columns, and YEAR is an output column |
| Sorting.RowLeTransitive | 0421Transfer/transfer.py:36 | the multi-key row order is transitive (with RowLeTotal: a total preorder) |
| Sorting.RowLeTotal | 0421Transfer/transfer.py:36 | any two rows are comparable under the multi-key order |
| Sorting.Insert | 0421Transfer/transfer.py:36 | inserting a row into sorted rows keeps them sorted and adds exactly that row |
| Sorting.SortRows | 0421Transfer/transfer.py:36 | sort_values returns a permutation of the rows that is sorted by the keys |
| Sorting.PermutationFacts | 0421Transfer/transfer.py:36 | a permutation has the same length and the same members |
| Cleaning.RenameRow | 0421Transfer/transfer.py:9 | a renamed row has exactly the new names, and the cell under each new name is the one under the matching old name |
| Cleaning.Clean | 0421Transfer/transfer.py:8-9 | fails exactly when the export has no Identifier column (KeyError('Identifier')) or the trimmed names collide; otherwise the header is the trimmed names and every row has exactly those columns |
| Cleaning.StripAll | 0421Transfer/transfer.py:9 | `df.columns.str.strip()` gives one trimmed name per column |
| Cleaning.StripAllNames | 0421Transfer/transfer.py:9 | each trimmed name is the middle of its column's name with no whitespace left at either end, and a name without whitespace at its ends is kept as it is |
| Cleaning.CleanRows | 0421Transfer/transfer.py:8-9 | the k-th cleaned row is the export's row at the k-th position with an Identifier, each cell moved under the trimmed name; so every cleaned row has an Identifier |
| Reshaping.Derive | 0421Transfer/transfer.py:22-27 | a year's row has that year's label, and ESG, ESG3, ESG9 read from the year's own three columns and no others; every other cell is carried over |
| Reshaping.Survivors | 0421Transfer/transfer.py:25 | a cleaned row is listed for year i exactly when its year-i score reads as a number and neither year-i flag is missing; the list is strictly increasing |
| Reshaping.SurvivorsSnoc | 0421Transfer/transfer.py:25 | one more cleaned row adds its own position at the end when it survives, and nothing otherwise |
| Reshaping.BlockColumns | 0421Transfer/transfer.py:22-27 | a year frame's header names exactly the cleaned columns and ESG, ESG3, ESG9 and YEAR |
| Reshaping.BlockColumnsOrder | 0421Transfer/transfer.py:22-27 | the cleaned header comes first and unchanged, and at most four names follow; when none of ESG, ESG3, ESG9, YEAR was a cleaned column, exactly those four are appended in assignment order |
| Reshaping.YearFrames | 0421Transfer/transfer.py:18-28 | there are five year frames, the i-th being year i's frame |
| Reshaping.ToNumericColumn | 0421Transfer/transfer.py:22 | one cell per row; a cell is missing exactly when the source cell is missing or its text reads as no number, and no result is text |
| Reshaping.FlagColumn | 0421Transfer/transfer.py:23-24 | one cell per row; a cell is missing exactly when the upper-cased text of the source cell is "FALSE" or "NAN", and every other result is text |
| Reshaping.ReshapeSpec | 0421Transfer/transfer.py:18-28 | the reshape as one value: a KeyError names a score column the cleaned table lacks, and success gives five frames |
| Reshaping.YearSpec | 0421Transfer/transfer.py:20-27 | one pass as one value: a KeyError names one of year i's three score columns that is absent; success gives the year frame's header and no more rows than the cleaned table |
| Reshaping.Passes | 0421Transfer/transfer.py:18-28 | the first n passes of the loop as one value: success holds one frame per pass, and a failure is a KeyError |
| Reshaping.BlockRows | 0421Transfer/transfer.py:18-28 | a year frame has at most one row per cleaned row, in order; a cleaned row yields a row for year i exactly when it survives, and the row it yields is its derived row |
| Reshaping.BlockValues | 0421Transfer/transfer.py:25-27 | every row of a year frame has the year's label and present ESG, ESG3 and ESG9 cells |
| Reshaping.AssignedComplete | 0421Transfer/transfer.py:25 | after the three assignments, a row has all three derived cells exactly when it survives |
| Reshaping.KeepAssigned | 0421Transfer/transfer.py:25 | dropna after the assignments keeps exactly the assigned survivors, in order |
| Reshaping.AssignRow | 0421Transfer/transfer.py:22-24 | the three column assignments change each row exactly as the year's derivation says |
| Reshaping.AssignSteps | 0421Transfer/transfer.py:22-24 | after the three assignments the frame has the cleaned header plus ESG, ESG3, ESG9, and each row is its assigned row |
| Reshaping.LabelSurvivors | 0421Transfer/transfer.py:25-27 | labelling the assigned survivors with the year gives exactly the year's derived rows |
| Reshaping.YearSteps | 0421Transfer/transfer.py:20-27 | three assignments, dropna and the YEAR label together give the declarative year frame |
| Reshaping.YearBody | 0421Transfer/transfer.py:20-27 | one pass of the loop gives the year's frame, or KeyError for the first of its three score columns that is absent |
| Reshaping.FirstMissingTriad | 0421Transfer/transfer.py:19-24 | with the earlier years' columns present, the first absent score column in reading order is the first absent one of year i's three, if any is absent |
| Reshaping.FirstMissingYear | 0421Transfer/transfer.py:19-24 | a failing pass for year i, after the earlier years succeeded, raises the whole reshape's KeyError; a succeeding pass means every column up to year i is present |
| Reshaping.ReshapeLoop | 0421Transfer/transfer.py:18-28 | the loop returns what the five passes make, run in year order, each appending its frame, the first KeyError ending the loop |
| Reshaping.PassesFail | 0421Transfer/transfer.py:18-24 | once a pass has raised, the loop's outcome is that exception |
| Reshaping.PassesSpec | 0421Transfer/transfer.py:18-28 | the five passes give the five year frames in year order, or the KeyError of the first absent score column in reading order |
| Reshaping.AllYears | 0421Transfer/transfer.py:18-28 | once every year's three columns were found, the reshape succeeds with the five year frames |
| Ordering.YearRank | 0421Transfer/transfer.py:34-35 | .map(year_order) gives label i the rank i and gives anything else no rank |
| Ordering.RankColumn | 0421Transfer/transfer.py:35 | one rank per row: label i's row gets rank i, and a row gets a rank only when its cell is a year label |
| Ordering.WithRanks | 0421Transfer/transfer.py:35 | assigning YEAR_order appends it as the last column, or overwrites an existing one, and keeps the row count |
| Ordering.YearRankOrder | 0421Transfer/transfer.py:34-36 | label i sorts before label j exactly when i <= j, although as text "FY-1" comes before "FY0" |
| Ordering.SortStage | 0421Transfer/transfer.py:34-36 | fails exactly when YEAR or Identifier is absent, with KeyError('YEAR') first; otherwise the header is the input's without the rank column |
| Ordering.RankedOrder | 0421Transfer/transfer.py:35-36 | two ranked rows in sort-key order are in Identifier-then-year-rank order |
| Ordering.RanksAdded | 0421Transfer/transfer.py:35 | adding the rank column keeps the row count, gives every row its year's rank, and changes nothing else |
| Ordering.DropKeyPermutation | 0421Transfer/transfer.py:36 | dropping a column from two reorderings of the same rows gives reorderings of the same rows |
| Ordering.SortedRanked | 0421Transfer/transfer.py:36 | ranked rows sorted by Identifier and rank are in Identifier-then-year order once the rank column is dropped |
| Ordering.ApplyPermutation | 0421Transfer/transfer.py:36 | rewriting every row of two reorderings of the same rows gives reorderings of the same results |
| Ordering.SortStageRows | 0421Transfer/transfer.py:34-36 | the sorted rows are a permutation of the input rows minus the rank column, ordered by Identifier and then by year rank; no row keeps the rank column |
| Ordering.Kept | 0421Transfer/transfer.py:39-40 | a name is kept exactly when it is a cleaned column and not one of the fifteen score columns |
| Ordering.KeptConcat | 0421Transfer/transfer.py:40 | the filter keeps column order: filtering a concatenation filters each part |
| Ordering.ColumnOrder | 0421Transfer/transfer.py:39-41 | the output order is the kept columns and then exactly YEAR, ESG, ESG3, ESG9 |
| Ordering.Project | 0421Transfer/transfer.py:42 | fails exactly when a column of the order is absent; otherwise the header is the order and there is one line per row |
| Pipeline.Run | 0421Transfer/transfer.py:8-42 | running the script step by step gives the output of the script as one function |
| Pipeline.Transfer | 0421Transfer/transfer.py:8-42 | the whole script as one function: no Identifier column raises KeyError('Identifier'), and an output's header is the column order computed from the trimmed names |
| Pipeline.Merged | 0421Transfer/transfer.py:31 | the merged table keeps the year frames' shared header |
| Pipeline.MergeRows | 0421Transfer/transfer.py:31 | the merged rows are the FY0 block, then FY-1's, and so on; the count is the sum of the blocks and at most five per cleaned row |
| Pipeline.MergedCount | 0421Transfer/transfer.py:18-31 | the merged table has one row per surviving pair of a cleaned row and a year |
| Pipeline.FlagSurvivor | 0421Transfer/transfer.py:23-24 | a surviving flag is present text other than "FALSE" and "NAN" |
| Pipeline.DeriveTidy | 0421Transfer/transfer.py:22-27 | a surviving row's derived row has an Identifier, one of the five labels, a numeric ESG and two present flags |
| Pipeline.BlockTidy | 0421Transfer/transfer.py:18-28 | every row of a year block is tidy |
| Pipeline.BlockUnranked | 0421Transfer/transfer.py:22-27 | the reshape adds no YEAR_order column |
| Pipeline.DeriveUnranked | 0421Transfer/transfer.py:22-27 | a derived row has a YEAR_order cell only when the cleaned row had one |
| Pipeline.MergedTidy | 0421Transfer/transfer.py:8-31 | every merged row has an Identifier, a year label, a numeric ESG and two present flags, and no rank column when the cleaned table had none |
| Pipeline.Stages | 0421Transfer/transfer.py:18-36 | with every score column present, the reshape yields the five year frames and the sort cannot fail |
| Pipeline.ProjectColumns | 0421Transfer/transfer.py:39-42 | the projection lacks only YEAR_order, and lacks it exactly when the cleaned table had it |
| Pipeline.ProjectErrors | 0421Transfer/transfer.py:35-42 | after a successful sort, the projection raises KeyError('YEAR_order') exactly when the cleaned table had that column |
| Pipeline.TransferErrors | 0421Transfer/transfer.py:8-42 | the script fails exactly when: Identifier is absent (KeyError('Identifier')); the trimmed names collide; a score column is absent (KeyError for the first one in reading order); or the export has a YEAR_order column (KeyError('YEAR_order')) |
| Pipeline.TransferSucceeded | 0421Transfer/transfer.py:8-42 | a successful run had every score column and no YEAR_order column, and wrote the projection of the sorted merged table |
| Pipeline.Projected | 0421Transfer/transfer.py:39-42 | the written header is the kept columns plus YEAR, ESG, ESG3, ESG9, and each line is the sorted row's fields under it |
| Pipeline.ReadBack | 0421Transfer/transfer.py:42 | a written line read back by name gives the row's Identifier, YEAR, ESG, ESG3 and ESG9 cells |
| Pipeline.SortedTidy | 0421Transfer/transfer.py:36 | sorting tidy rows that have no rank column reorders them, keeps them tidy and puts them in output order |
| Pipeline.PermutationTidy | 0421Transfer/transfer.py:36 | a reordering of tidy rows is tidy |
| Pipeline.SortedMerged | 0421Transfer/transfer.py:31-42 | the written lines are the fields of a permutation of the merged rows that is tidy and ordered by Identifier and then year rank |
| Pipeline.LinesRead | 0421Transfer/transfer.py:42 | tidiness and output order survive writing the rows as lines under the output header |
| Pipeline.TransferOutput | 0421Transfer/transfer.py:8-42 | the output header is the kept columns plus YEAR, ESG, ESG3, ESG9; the lines are a permutation of the merged rows' fields, one per surviving company and year; every line is tidy; lines are ordered by Identifier and then year rank |

## Left out

- Reading the CSV file (line 5) and writing it (line 46) are not modelled: the file name, the CSV parser's type inference, the UTF-8 byte-order mark and the final print are left out. The model starts from the table `read_csv` returns and ends at the table handed to `to_csv`.
- ToNumeric: how pandas parses one string into a number (and that it gives NaN for "nan") is the `Coercion.parse` parameter, not a re-implementation. Floating point is modelled as `real`.
- AsStr: how Python writes a float with `str()` is the `Coercion.show` parameter.
- Upper, UpperChar: map ASCII letters only. Python's `str.upper` also maps non-ASCII letters, and some characters (such as "ß") to more than one character. A non-ASCII flag that upper-cases to "FALSE" or "NAN" is therefore not captured.
- Clean: when trimming the header makes two names equal, pandas keeps both columns, and later selections by that name return several columns. The model raises DuplicateColumns instead, because a row is a map from name to cell.
- Select: pandas' KeyError names every missing column at once; the model reports the first missing one in the requested order.
- SortRows: the order of rows that tie on Identifier and year rank is not stated. Stability and the sort algorithm pandas uses are left out; only "a permutation in key order" is proved.
- The pandas index is left out, along with its renumbering by `ignore_index=True`, the `.copy()` calls and column dtypes. Every table is a fresh value, so there is no aliasing to model.
