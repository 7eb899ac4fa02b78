# Survey setup: a Dafny model

`surveySetup.py` is run once after each data-collection period of the
ISTE and SWEN accessibility survey. It does the following:

- reads the survey export;
- normalises student e-mail addresses;
- keeps the rows of the two current collectors and merges them;
- reports duplicate respondents;
- tallies unanswered questions and keeps the respondents who answered at
  least four fifths of the table;
- draws a raffle winner among them;
- recodes the Likert, experience, software, web-design and yes/no answers
  to numbers.

This project models that core over an abstract table. A cell is `Missing`
(NaN), `Num(n)` or `Text(s)`. A row is a sequence of cells. A `Frame` is a
list of column labels plus the rows.

- `frames.dfy` (module `Frames`) holds the cells, rows and frames, and the
  list operations the script is built from:
  - boolean row masks (`Filter`);
  - positional column selection (`Indices`, `ProjectFrame`);
  - label lookup (`ColumnIndex`);
  - per-row missing counts (`MissingCount`).
- `scales.dfy` (module `Scales`) is the scale recoder:
  - the cell-wise lookup of `formatScale`;
  - the six label-to-code tables and the column positions they apply to;
  - the label-keyed replace of the three reverse-coded items;
  - the sequence of passes the script runs.

  Everything is proved against `ColumnScale`, a column-by-column reference
  table.
- `respondents.dfy` (module `Respondents`) is the respondent pipeline:
  - e-mail normalisation;
  - the Collector-ID batches and their merge;
  - removal of empty columns and of the IP address;
  - duplicate detection and the warning loop;
  - the completeness tally and eligibility filter;
  - the raffle draw, both as written and corrected.
- `surveysetup.dfy` (module `SurveySetup`) holds the class `Table`: column
  labels plus an `array<Row>`. Its methods are the script's in-place steps:
  - `formatScale`;
  - the e-mail column overwrite;
  - the label replace;
  - the whole recoding sequence;
  - the tally column;
  - the eligibility filter.

  Each method's `ensures` ties the new array contents to the functions of
  the other modules.

The random draw is a parameter (`draw`). Reading and writing CSV files and
printing are not modelled. The winner, the duplicate report and the warned
keys are results instead.

The label replace at surveySetup.py:73 comes after the default Likert pass
at line 69, but it does not override it. That pass leaves numbers behind,
and the label replace matches no number. So wherever the two passes meet,
the default pass wins
(`SurveyScaleByColumn`). With the export's layout (`ReverseCodedLayout`)
they never meet (`DefaultAndReversePassesDisjoint`). The model follows the
code.

Duplicates are grouped by the sixth column of the merged table
(`eligible.iloc[:, 5]`, lines 47-52), and the model follows that
(`KeyColumn = 5`). The merged table has lost its empty columns
(the `dropna` at lines 33-34) and the IP address, so which export column ends
up sixth depends on the data. The name `dup_emails` suggests it is meant
to be the e-mail, which lines 28-30 normalise at export column 10. A key
cell that is `Missing` (NaN) equals nothing, so it never makes a row a
duplicate.

## Model

| member | source | states |
|---|---|---|
| Frames.MissingCount | surveySetup.py:58 | the number of missing cells in a row is at most its length; it is zero exactly when no cell is missing, and equals the length exactly when every cell is missing |
| Frames.MissingCountAppend | surveySetup.py:58 | the missing count of two concatenated rows is the sum of their counts |
| Frames.Filter | surveySetup.py:33-34 | a boolean row mask keeps only elements that pass the test and every element that passes it, and never lengthens the sequence |
| Frames.FilterAppend | surveySetup.py:33-34 | masking distributes over concatenation, so kept rows stay in their original order |
| Frames.FilterMultiplicity | surveySetup.py:33-34 | each passing element keeps all its copies and every other element has none |
| Frames.ProjectFrame | surveySetup.py:33-34 | selecting the positions `keep` gives one column per position, carrying that column's label and, in every row, that column's cell; the row count is kept |
| Frames.ProjectTwice | surveySetup.py:33-39 | selecting columns from a selection is selecting the composed positions from the original table |
| Frames.AscendingUnique | surveySetup.py:33-39 | two ascending position lists with the same members are equal, so a column selection is fixed by the set of columns it keeps |
| Frames.IndicesAll | surveySetup.py:38-39 | a test every column passes selects all columns in order |
| Frames.ColumnIndex | surveySetup.py:33-34 | `df['Collector ID']` finds the first column with that label; there is no result (KeyError) exactly when no column has it |
| Scales.RecodeCellwise | surveySetup.py:15-16 | formatScale replaces a listed cell with `scale[s]` exactly when it is a text key `s`; missing, numeric and unmapped cells and all unlisted columns are unchanged; row and cell counts are preserved |
| Scales.RecodeLeavesNoKeys | surveySetup.py:15-16 | after a pass no listed cell still holds a label of the scale |
| Scales.RecodeIdempotent | surveySetup.py:15-16 | applying formatScale twice with the same scale equals applying it once |
| Scales.RecodeCellCompose | surveySetup.py:69-73 | two lookups in sequence act as one lookup in the union of the scales, where the first scale's labels win |
| Scales.ReverseMirrorsDefault | surveySetup.py:67-72 | reverseScale has the six labels of defaultScale, each with code 7 - d, so it inverts the label order |
| Scales.ScaleRanges | surveySetup.py:67-88 | Likert codes lie in 1..6, experience, software and web codes in 1..2, yes/no codes in 0..1 |
| Scales.Range | surveySetup.py:77 | `range(lo, hi)` holds exactly the positions lo..hi-1 |
| Scales.IdpColumns | surveySetup.py:68 | the default Likert positions are exactly 8..27 except 17, 21 and 22 |
| Scales.ExpColumns | surveySetup.py:77 | the experience positions are exactly 29..36 |
| Scales.SwColumns | surveySetup.py:81 | the software positions are exactly 38..45 |
| Scales.WebColumns | surveySetup.py:85 | the web-design positions are exactly 46..61 |
| Scales.BooleanColumns | surveySetup.py:89 | the yes/no positions are exactly 62 and 63 |
| Scales.NamedColumns | surveySetup.py:73 | the label replace touches exactly the columns whose label is one of the three reverse-coded item labels |
| Scales.DefaultAndReversePassesDisjoint | surveySetup.py:68-73 | with the export's layout the label replace touches exactly positions 17, 21 and 22, which the default pass leaves out |
| Scales.ApplyPassesCellwise | surveySetup.py:69-89 | running passes in sequence recodes each cell once, with the union of the scales of the passes listing its column (earlier ones win) |
| Scales.ApplyPassesIdempotent | surveySetup.py:69-89 | running the passes again over their own output changes nothing |
| Scales.ApplyPassesPrefix | surveySetup.py:69-89 | the first k + 1 passes are the first k passes followed by pass k |
| Scales.CompletedPasses | surveySetup.py:69-89 | the number of passes that run is the length of the longest prefix whose positions all fit the table, and the next pass does not fit |
| Scales.CompletedPassesAt | surveySetup.py:69-89 | if the first k passes fit and pass k does not, exactly k passes run |
| Scales.FitsByLargest | surveySetup.py:16 | `iloc[:, cols]` stays in range exactly when the largest listed position does |
| Scales.SurveyPassesFit | surveySetup.py:69-89 | the passes need tables of at least 28, 0, 37, 46, 62 and 64 columns |
| Scales.PositionalPassesScale | surveySetup.py:76-89 | the four positional passes never share a column, so at each column they act as the one scale listing it |
| Scales.LabelAndPositionalScale | surveySetup.py:73-89 | after the label replace and the positional passes, a reverse-coded label column gets the reverse scale over its positional one |
| Scales.SurveyScaleByColumn | surveySetup.py:67-89 | at every column the six passes amount to the reference table `ColumnScale`; the default pass wins over the label replace |
| Scales.RecodeSurveyCellwise | surveySetup.py:67-89 | every cell of the recoded survey is its original cell looked up in its column's reference scale; labels and sizes are kept |
| Scales.RecodeSurveyIdempotent | surveySetup.py:67-89 | recoding the survey twice is recoding it once |
| Scales.ReverseCodedItemsMirrored | surveySetup.py:67-73 | a Likert answer at a reverse-coded item gets code 7 - d, at another Likert item the default code d; an answer that is not a label of the column's scale stays text |
| Respondents.Lower | surveySetup.py:28 | lower-casing keeps the length, leaves no upper-case letter, keeps every other character and maps each capital to its small letter |
| Respondents.LowerAppend | surveySetup.py:28 | lower-casing works character by character over concatenation |
| Respondents.RemoveAll | surveySetup.py:29-30 | suffix removal never lengthens the text |
| Respondents.RemoveAllKeeps | surveySetup.py:29-30 | suffix removal introduces no character that was not in the text |
| Respondents.RemoveAllFirst | surveySetup.py:29-30 | scanning from the left, the first occurrence is removed, the text before it is kept, and the scan resumes right after it |
| Respondents.RemoveAllAbsent | surveySetup.py:29-30 | text in which the pattern does not occur is unchanged |
| Respondents.RemoveTrailing | surveySetup.py:29-30 | a trailing suffix is removed when no earlier character can start it |
| Respondents.NormaliseEmail | surveySetup.py:28-30 | text stays text without upper-case letters and never grows; a number or a missing cell becomes missing |
| Respondents.InstitutionalAddress | surveySetup.py:28-30 | `local@rit.edu` and `local@g.rit.edu`, in any letter case, normalise to the lower-cased local part |
| Respondents.OtherAddress | surveySetup.py:28-30 | an address without either suffix is only lower-cased |
| Respondents.NormaliseColumnEffect | surveySetup.py:28-30 | only the e-mail column changes, and it then holds only missing cells and text without upper-case letters |
| Respondents.NonEmptyColumns | surveySetup.py:33-34 | `dropna(axis=1, how='all')` keeps exactly the columns with at least one answer, in table order |
| Respondents.DropEmptyColumns | surveySetup.py:33-34 | the remaining columns are exactly the answered ones, in order, each with its label and its cells in every row; every remaining column holds an answer |
| Respondents.MergeBatches | surveySetup.py:33-37 | row i of the merged table is row i of the 98658412 batch followed by the 98658411 batch, restricted in order to the columns that some merged row answered, with their labels |
| Respondents.BatchesPartition | surveySetup.py:33-37 | every row of either collector is kept as many times as it occurs, and rows of any other collector are dropped |
| Respondents.BatchOrder | surveySetup.py:33-37 | each batch keeps the original row order |
| Respondents.MergedColumns | surveySetup.py:33-37 | a merged column holds an answer exactly when it does in one of the batches; when both batches keep the same columns, so does the merge |
| Respondents.DropLabel | surveySetup.py:38-39 | dropping 'IP Address' keeps exactly the columns with another label, in order, each with its cells, and all rows; no column with that label is left |
| Respondents.DropLabelSelects | surveySetup.py:38-39 | the drop selects the columns with another label whether or not the label occurs |
| Respondents.DropEmptyThenLabel | surveySetup.py:33-39 | dropping the empty columns and then 'IP Address' selects, in order, exactly the columns that are answered and have another label |
| Respondents.CleanRespondents | surveySetup.py:28-39 | the merged table fails with IndexError exactly when there is no eleventh column, and with KeyError exactly when there is no 'Collector ID'; otherwise its rows are the two batches of the e-mail-normalised export, in order, restricted to the answered columns other than 'IP Address', with their labels and cells |
| Respondents.OccurrencesCount | surveySetup.py:52 | `(column == key).sum()` is the number of rows the mask `column == key` keeps; NaN equals nothing, so a missing key is counted in no row |
| Respondents.FindDuplicates | surveySetup.py:46-55 | the duplicate report holds exactly the rows whose present key occurs in more than one row, each with all its copies and nothing else; an empty report is "No duplicate entries" |
| Respondents.NoDuplicatesIffDistinct | surveySetup.py:46-55 | line 47 finds no duplicate group, and "No duplicate entries" is reported, exactly when no two rows share a present key; the message can also follow a TypeError in the loop (see `WarnDuplicatesAsWritten`) |
| Respondents.WarnDuplicates | surveySetup.py:51-53 | the loop as intended, with `str(dup)`: it warns, in iteration order, exactly the keys that occur in more than one row |
| Respondents.FirstUnprintable | surveySetup.py:51-53 | the position of the first key that is repeated and not text, before which every key prints; the key count when there is none |
| Respondents.WarnDuplicatesAsWritten | surveySetup.py:51-55 | the loop as written raises exactly when some key is repeated and not text; it has then warned the repeated keys before that key, otherwise all repeated keys |
| Respondents.NumericDuplicateHidden | surveySetup.py:47-55 | two rows sharing a numeric key form a duplicate group, yet the loop raises on that key, so "No duplicate entries" is printed after the duplicates were written |
| Respondents.DuplicateKeysAllWarned | surveySetup.py:50-53 | over the keys of the duplicate groups the loop's test always passes, so each of them is warned |
| Respondents.Tallied | surveySetup.py:58 | the tallied table has 'Total Incomplete Answers' as a new last label; every row keeps its cells and gains its own number of missing cells as its last cell |
| Respondents.EligiblePool | surveySetup.py:43-59 | the eligible table is rectangular and no longer than the merged one |
| Respondents.FilterTallied | surveySetup.py:58-59 | filtering tallied rows on their tally equals tallying the rows that pass the missing-count test |
| Respondents.EligiblePoolExact | surveySetup.py:43-59 | the eligible rows are, in order, exactly the tallied rows of the merged table with at most a fifth of its columns missing; a row is kept if and only if it passes |
| Respondents.RaffleAsWritten | surveySetup.py:62-63 | with `randint(0, len(eligible))` a draw reads a row exactly when it is below the pool size and the row has a sixth cell, and then prints that row's fifth and sixth cells |
| Respondents.RaffleAsWrittenOverruns | surveySetup.py:62-63 | the draw equal to the pool size is in randint's range and always fails; with an empty pool every draw fails |
| Respondents.Raffle | surveySetup.py:62-63 | the corrected draw reports "no eligible respondents" exactly for an empty pool, and a missing identifier column exactly when the drawn row is too short; otherwise the winner is the drawn row's fifth and sixth cells |
| Respondents.RaffleWinnerEligible | surveySetup.py:58-63 | the pool has one row per eligible respondent, and the winner is the draw-th eligible respondent in table order, named by that row's fifth and sixth cells, so a uniform draw gives a uniform winner |
| SurveySetup.Table.constructor | surveySetup.py:42 | a table holding a given frame |
| SurveySetup.Table.Value | surveySetup.py:42 | the table's value has its labels and one row per array element, and is rectangular when the table is valid |
| SurveySetup.Table.RecodeInPlace | surveySetup.py:16 | the array rows become the recoded rows |
| SurveySetup.Table.FormatScale | surveySetup.py:15-16 | succeeds exactly when every listed position is a column, and then the rows become `Recode` of the old rows; otherwise nothing is written |
| SurveySetup.Table.ReplaceByLabel | surveySetup.py:73 | the rows become the old rows recoded at the columns carrying one of the labels |
| SurveySetup.Table.NormaliseEmails | surveySetup.py:28-30 | succeeds exactly when there is an eleventh column, and then the rows become `NormaliseColumn` of the old rows; otherwise nothing is written |
| SurveySetup.Table.RunPass | surveySetup.py:69-89 | one pass extends the passes applied so far; when it does not fit, the passes that completed are recorded |
| SurveySetup.Table.RecodeAnswers | surveySetup.py:66-89 | succeeds exactly when the table has at least 64 columns; the rows are the old rows after the passes that ran before the first misfit, and on success the value is `RecodeSurvey` of the old value |
| SurveySetup.Table.AddIncompleteTally | surveySetup.py:58 | the new value is `Tallied` of the old value |
| SurveySetup.Table.KeepWithinThreshold | surveySetup.py:59 | the rows become, in order, the old rows whose tally is within a fifth of the given width; the labels are unchanged |

## Left out

- Reading the export and writing the three CSV files (lines 19, 48, 64, 91), and every `print`. These are I/O; the winner, the duplicate report and the warned keys are results instead.
- The random number source. The draw is a parameter of `RaffleAsWritten` and `Raffle`.
- Header renaming from data row 0, the `_web`/`_exp` suffixes and the punctuation strip (lines 20-25). These are pandas `columns.values` mutation and Unicode regex; the model takes the labels as given.
- Respondents.Lower: lower-cases ASCII letters only, where Python's `str.lower` also folds other scripts.
- Respondents.RemoveAll: removes the literal text. The older pandas `str.replace` treats the pattern as a regular expression, whose `.` matches any character. Like `str.replace`, it makes one left-to-right pass, so a removal that joins its neighbours into a new suffix leaves that suffix in place.
- Respondents.Eligible: uses the integer test `5 * missing <= width` instead of `missing <= width * .2`. The double 0.2 is slightly above one fifth, and every multiple of a fifth that is an integer is representable. So the rounded product is never below that integer, and the two tests agree for integer counts.
- Respondents.NormaliseEmail: a column with no string at all makes pandas' `.str` accessor raise; the model turns its cells into missing cells.
- Respondents.MergeBatches: the column order pandas produces when the two batches keep different column sets is not modelled (its `append` sorts the union of the labels). The model drops, from the common column list, the columns empty in both batches; `MergedColumns` shows this is the same set as per-batch dropping followed by the append.
- Respondents.FindDuplicates: the report lists the duplicate rows in table order; pandas' `groupby` lists the groups sorted by key.
- Respondents.FindDuplicates: the blanket `except:` at line 54 is modelled for two causes: no duplicate group, where `pd.concat` of nothing raises, and a repeated key that is not text (`WarnDuplicatesAsWritten`). Other exceptions are not modelled.
- The strict duplicate policy (stop before the draw) is not part of this script, which only warns.
- SurveySetup.Table.AddIncompleteTally: always appends a tally column. A table that already has a 'Total Incomplete Answers' column would have it overwritten by pandas.
- Duplicate column labels: `ColumnIndex` takes the first column with a label, where pandas would return all of them.
- The threshold fraction 0.4 and the strict `<` comparison of other revisions of the script are not part of this version.

## Findings

| source | as written | input that shows it | evidently intended | confidence | as-written member | corrected member |
|---|---|---|---|---|---|---|
| surveySetup.py:62-63 | `randint(0, len(eligible))` includes `len(eligible)`, one past the last row, and an empty pool is indexed anyway | any pool with draw = len(eligible); or an empty pool with draw 0 | a uniform draw over 0..len(eligible)-1, with an empty pool reported as "no eligible respondents" | high (not executed) | Respondents.RaffleAsWritten, Respondents.RaffleAsWrittenOverruns | Respondents.Raffle, Respondents.RaffleWinnerEligible |
| surveySetup.py:51-55 | `print("Warning duplicate: " + dup)` concatenates the key with a string, and the bare `except:` answers any error with "No duplicate entries" | two rows whose sixth merged cell is the same number: the duplicate group is written to Duplicate-Entries.csv, then line 53 raises TypeError. If that column is the e-mail, line 28's `.str.lower()` has turned numbers into NaN and this cannot happen | warn every repeated key (`str(dup)`), and keep "No duplicate entries" for the case with no group | low (not executed) | Respondents.WarnDuplicatesAsWritten, Respondents.NumericDuplicateHidden | Respondents.WarnDuplicates, Respondents.DuplicateKeysAllWarned |
