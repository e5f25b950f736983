# PythonToolkitBundle core, modelled in Dafny

This project models three parts of the PythonToolkitBundle helpers and proves
properties of the model:

- **ExcelUtils**
  - Conversion between a column number and its letters (`get_column_letter`,
    `get_column_index`).
  - The cell-value operations of the three spreadsheet backends: openpyxl,
    xlwings and xlrd/xlwt/xlutils.
  - The choice of a backend when an `ExcelUtils` is built.
- **PythonCommentUtils**
  - `check_comment_ratio`: it classifies the lines of a Python file, counts
    the comment lines and compares their rounded share with a minimum.
  - The two text rewrites of `remove_comments`: `#` comments and `"""` spans
    are deleted.
- **DateTimeUtils**
  - The date and time helpers for the layouts `%Y-%m-%d`, `%Y%m%d` and
    `%H:%M:%S`.
  - They are built on a model of Python's proleptic Gregorian `date`, of
    `strptime` (with its regular expressions and backtracking) and of
    `strftime`.

Each spreadsheet is a grid of cells keyed by (row, column); an absent key is an
empty cell (`None`). The backends whose methods change cells in place are
classes:

- `OpenpyxlSheet.OpenpyxlAdapter`, `XlwingsSheet.XlwingsAdapter` and
  `XlutilsSheet.XlutilsAdapter` are the three backends.
- Each has the grid as a field, plus its extent.
- Each has a `saved` grid, which models what the last `book.save` wrote.
- The openpyxl sheet also has openpyxl's append cursor, `cursor`: the row
  `append` last used, 0 for a sheet without cells. It is raised by every cell
  created. Deleting rows resets it to `max_row`, or to 0 when no cell is left.

Their loops are methods with invariants:

- The row and column scans.
- The cursor loops of `append_value` and `insert_values`.
- The loop of `get_column_letter`.
- The counting loop of `check_comment_ratio`.

Each is proved against a specification function: `OpenpyxlScanned`,
`XlwingsScanned`, `Fill`, `Letters`, `Number` and `CommentCount`. Further
properties are proved as lemmas about those functions.

Several behaviours of the code are modelled as written:

- openpyxl `delete_col` deletes the ROW whose number is the column's index.
- xlwings `append_value` returns before it saves when it finds a cell.
- Every xlutils write with `auto_save=False` raises `UnboundLocalError`, because
  the name `suffix` is read before it is assigned.
- An `ExcelUtils` built for a `.xls` file without a named engine uses xlwings,
  not xlutils.

Two documented examples disagree with the code, and the model follows the
code:

- `get_day_by_caculate("2023-04-12", days=-366)` is `2022-04-11`, not
  `2022-04-13`.
- `change_pattern("2023-05-11", "%Y-%m-%d", "%Y%m%d")` is `20230511`, not
  `20230510`.

## Model

| member | source | states |
|---|---|---|
| ColumnLetters.GetColumnLetter | ExcelUtils.py:10-27 | ValueError for a column number that is not positive; otherwise the loop yields the column's bijective base-26 letters |
| ColumnLetters.GetColumnIndex | ExcelUtils.py:29-44 | upper-cases the name; ValueError when any character is then not a letter A..Z; otherwise the column number, 0 for the empty name |
| ColumnLetters.LettersAreAColumnName | ExcelUtils.py:21-27 | the letters of n are all in A..Z, and they are non-empty exactly when n is at least 1 |
| ColumnLetters.NumberOfLetters | ExcelUtils.py:10-44 | reading back the letters of any n gives n |
| ColumnLetters.LettersOfNumber | ExcelUtils.py:10-44 | writing the number of any upper-case name gives the name back, so names and numbers are in one-to-one correspondence |
| ColumnLetters.NumberFromEnd | ExcelUtils.py:39-41 | the number of a name is the weighted sum taken from its last letter backwards, with weight 26^i |
| ColumnLetters.KnownColumns | ExcelUtils.py:10-27 | 1, 26, 27, 702, 703 and 16384 are A, Z, AA, ZZ, AAA and XFD |
| ColumnLetters.LowerCaseColumn | ExcelUtils.py:39 | a lower-case name reads as its upper-case form: "ab" is column 28 |
| Cells.Put | ExcelUtils.py:136 | setting one cell changes that cell only |
| Cells.WriteRow | ExcelUtils.py:697 | writing a row from column 1 sets exactly those cells and leaves every other cell as it was |
| Cells.DeleteRowAt | ExcelUtils.py:709 | after deleting a row, the rows above keep their cells and every row below moves up by one |
| Cells.DeleteColAt | ExcelUtils.py:720 | after deleting a column, the columns to the left keep their cells and every column to the right moves left by one |
| Cells.DeleteRowInBox | ExcelUtils.py:204 | deleting a row keeps every cell inside the sheet's extent, and the extent shrinks by one row when the row was inside it |
| Cells.DeleteColInBox | ExcelUtils.py:720 | deleting a column keeps every cell inside the sheet's extent |
| Cells.ColumnPut | ExcelUtils.py:136 | setting one cell of a column changes exactly one element of the column as read top-down |
| Cells.OpenpyxlScan | ExcelUtils.py:94-104 | the loop appends each cell, counts consecutive blanks, stops at the fifth and then drops those five; its result meets OpenpyxlScanned |
| Cells.OpenpyxlScanDeterminate | ExcelUtils.py:94-125 | the openpyxl scan has exactly one possible result for the cells it visits |
| Cells.OpenpyxlScanHasNoRun | ExcelUtils.py:94-125 | a row or column read by openpyxl never contains five consecutive blanks |
| Cells.NoRunPrefix | ExcelUtils.py:102-104 | a prefix of a sequence without k consecutive blanks has none either |
| Cells.XlwingsScan | ExcelUtils.py:588-602 | the loop counts falsy cells, breaks only on the sixth in a row and drops the trailing five; its result meets XlwingsScanned |
| Cells.XlwingsBrokenScanEndsBlank | ExcelUtils.py:595-602 | when the xlwings scan breaks off, its result still ends with one falsy cell |
| Cells.XlwingsScanHasNoRun | ExcelUtils.py:613-624 | an xlwings scan never returns six consecutive falsy cells |
| Cells.FirstEmptyRow | ExcelUtils.py:149-154 | the first row at or below start_row whose cell is None: every eligible row above it is filled, and None when no row qualifies |
| Cells.FillAt | ExcelUtils.py:168-177 | after an "append" bulk write, an eligible cell with c eligible cells above it holds values[c] when c < len(values); every other cell is unchanged |
| Cells.FillSplit | ExcelUtils.py:171-177 | filling a column in two parts equals filling it at once, with the values the first part used taken off for the second |
| Cells.FillCount | ExcelUtils.py:168-177 | a fill of non-None values places min(len(values), eligible cells) of them: exactly that many fewer None cells remain eligible |
| Cells.FillNothing | ExcelUtils.py:168-177 | with no values, or with no eligible cell, the column is unchanged |
| Cells.NoEmptiesAbove | ExcelUtils.py:151 | a stretch of rows lying wholly above start_row has no eligible cell, so a fill never writes there |
| OpenpyxlSheet.FillDown | ExcelUtils.py:168-177 | the append-mode loop: the column becomes Fill of the old column and no other cell changes |
| OpenpyxlSheet.OpenpyxlAdapter.GetValue | ExcelUtils.py:73-83 | the cell's value, None for a cell never written or outside the extent; a row outside 1..1048576 raises ValueError |
| OpenpyxlSheet.OpenpyxlAdapter.GetRowValues | ExcelUtils.py:85-104 | row 0 raises IndexError, a negative row or one past 1048576 raises ValueError; otherwise the row's cells, scanned with None as blank |
| OpenpyxlSheet.OpenpyxlAdapter.GetColValues | ExcelUtils.py:106-125 | the column's cells, scanned with every falsy value as blank |
| OpenpyxlSheet.FindEmptyDown | ExcelUtils.py:149-154 | the append_value loop stops at FirstEmptyRow of the column: the first None cell at a row >= start_row, or none |
| OpenpyxlSheet.OpenpyxlAdapter.InsertValue | ExcelUtils.py:127-138 | sets exactly that cell, grows the extent and the append cursor to cover it, and saves when auto_save is on; a row outside 1..1048576 raises ValueError and changes nothing |
| OpenpyxlSheet.OpenpyxlAdapter.AppendValue | ExcelUtils.py:140-156 | writes the value into the first None cell at or below start_row among the column's cells, changes no cell if there is none, and changes no other cell; the scan takes max_column to the column and the cursor to max_row |
| OpenpyxlSheet.OpenpyxlAdapter.FillColumn | ExcelUtils.py:168-177 | "append" mode: the column becomes Fill of the old column and no other column changes; IndexError, with no cell changed, for an empty list when row 1 is eligible |
| OpenpyxlSheet.OpenpyxlAdapter.WriteColumn | ExcelUtils.py:178-182 | "insert" mode sets rows start_row.. to the values and no other cell; a first row below 1 raises ValueError before any write, and a run past row 1048576 raises ValueError after the rows up to 1048576 are written |
| OpenpyxlSheet.OpenpyxlAdapter.InsertValues | ExcelUtils.py:158-184 | "append" fills the column and changes no other column, "insert" overwrites the run of rows and no other cell, with the same errors as the two loops; any other mode writes nothing; saves only when auto_save is on and nothing was raised |
| OpenpyxlSheet.OpenpyxlAdapter.AppendRow | ExcelUtils.py:186-195 | writes the values into the row after the append cursor (row 1 on a sheet without cells), moves the cursor there even for an empty list, and no cell that held a value changes |
| OpenpyxlSheet.OpenpyxlAdapter.DeleteRow | ExcelUtils.py:197-206 | removes the row; the rows below move up; the append cursor becomes max_row, or 0 when no cell is left |
| OpenpyxlSheet.OpenpyxlAdapter.DeleteCol | ExcelUtils.py:208-217 | deletes the ROW numbered by the column's index, as the code does, with delete_row's cursor reset |
| XlutilsSheet.ReadBack | ExcelUtils.py:391 | what xlrd reads back: an empty cell is "" and a boolean is 1 or 0 |
| XlutilsSheet.PyIndex | ExcelUtils.py:391 | Python list indexing: an index in -n..n-1 is valid and a negative one counts from the end |
| XlutilsSheet.WriteColumnRun | ExcelUtils.py:481-490 | writes values[k] into row from_row+k of the column; ValueError when a row index falls outside what xlwt accepts |
| XlutilsSheet.WriteRowRun | ExcelUtils.py:515-518 | writes values[k] into column k of the row; ValueError past xlwt's column range |
| XlutilsSheet.XlutilsAdapter.GetValue | ExcelUtils.py:381-391 | reads cell (row-1, index-1) with Python indexing; ValueError for a bad column name and IndexError outside the sheet |
| XlutilsSheet.XlutilsAdapter.GetRowValues | ExcelUtils.py:393-402 | the whole of row row-1, all ncols cells; IndexError outside the sheet |
| XlutilsSheet.XlutilsAdapter.GetColValues | ExcelUtils.py:404-413 | cell (i, index-1) of every row i; ValueError for a bad column name |
| XlutilsSheet.XlutilsAdapter.Commit | ExcelUtils.py:428-440 | saves the copy and reopens it when auto_save is on; raises UnboundLocalError and keeps the sheet otherwise |
| XlutilsSheet.XlutilsAdapter.InsertValue | ExcelUtils.py:415-440 | writes cell (row-1, index-1) of the copy, then commits |
| XlutilsSheet.XlutilsAdapter.AppendValue | ExcelUtils.py:442-466 | writes the column's cell in row nrows, the first row after the sheet |
| XlutilsSheet.XlutilsAdapter.InsertValues | ExcelUtils.py:468-503 | "append" writes from row nrows down and "insert" from 0-based row start_row down; any other mode writes nothing |
| XlutilsSheet.XlutilsAdapter.AppendRow | ExcelUtils.py:505-531 | writes the values into row nrows from column 0 on |
| XlwingsSheet.FillFrom | ExcelUtils.py:669-679 | the cursor loop of "append" mode: the column, up to row 1048575, becomes Fill of the old column and no other cell changes |
| Cells.WriteDown | ExcelUtils.py:680-683 | "insert" mode sets rows start_row.. in order and no other cell; it stops at the first row outside 1..1048576, which raises, and the last row written is LastInserted |
| XlwingsSheet.NoBreakWithinTruthyPrefix | ExcelUtils.py:592-601 | a row whose first 26 cells are all truthy never breaks off within them, so the scan must go past column Z |
| XlwingsSheet.AsWrittenOverwritesLastRow | ExcelUtils.py:694-698 | append_row as written replaces the first cell of the used range's last row, and writing one row lower would keep it |
| XlwingsSheet.XlwingsAdapter.GetValue | ExcelUtils.py:567-577 | the cell's value; an address outside the sheet raises |
| XlwingsSheet.XlwingsAdapter.GetRowValuesAsWritten | ExcelUtils.py:579-602 | the scan of columns A..Z; a scan that has not broken off by column Z raises, because the next address is "[" |
| XlwingsSheet.XlwingsAdapter.GetRowValues | ExcelUtils.py:579-602 | the scan of the whole row, with columns named as get_column_letter names them |
| XlwingsSheet.XlwingsAdapter.GetColValues | ExcelUtils.py:604-624 | the column's cells scanned up to the sixth consecutive falsy cell, with five dropped |
| XlwingsSheet.XlwingsAdapter.InsertValue | ExcelUtils.py:626-637 | sets exactly that cell; an address outside the sheet raises |
| XlwingsSheet.XlwingsAdapter.AppendValue | ExcelUtils.py:639-657 | writes the first None cell from start_row down and returns True without saving; when none is found below row 1048576 it saves and returns None |
| XlwingsSheet.XlwingsAdapter.InsertValues | ExcelUtils.py:659-685 | "append" fills None cells from start_row down, "insert" overwrites the run of rows, and any other mode writes nothing |
| XlwingsSheet.XlwingsAdapter.AppendRowAsWritten | ExcelUtils.py:687-700 | writes the values into the used range's last row, overwriting it |
| XlwingsSheet.XlwingsAdapter.AppendRow | ExcelUtils.py:687-700 | writes the values into the row after the used range, and no cell that was there changes |
| XlwingsSheet.XlwingsAdapter.DeleteRow | ExcelUtils.py:702-711 | removes the row; the rows below move up |
| XlwingsSheet.XlwingsAdapter.DeleteCol | ExcelUtils.py:713-722 | removes the column; the columns to the right move left |
| ExcelEngine.ChooseEngine | ExcelUtils.py:864-947 | a named engine must be openpyxl, xlutils or xlwings, else ValueError; with no name, the suffix .xlsx gives openpyxl, .xls gives xlwings, and any other suffix is a KeyError |
| ExcelEngine.NamedEngineIsChosen | ExcelUtils.py:933-945 | naming an engine selects it, whatever the path |
| ExcelEngine.DefaultIsANamedEngine | ExcelUtils.py:864-865 | the default engine is never xlutils, and it is the one that naming it would choose |
| ExcelEngine.Suffix | ExcelUtils.py:906 | the path's suffix is empty or a dot followed by dot-free text taken from the end of the file name |
| ExcelEngine.SuffixOfFile | ExcelUtils.py:906 | a file stem.ext, with or without a directory and a trailing separator, has the suffix .ext |
| ExcelEngine.HiddenFileHasNoSuffix | ExcelUtils.py:906 | a file named ".xlsx" has no suffix, so no default engine is found (KeyError) |
| ExcelEngine.DefaultEngineOfFile | ExcelUtils.py:905-906 | with no engine named, stem.xlsx opens with openpyxl, stem.xls with xlwings, and any other extension is a KeyError |
| ExcelEngine.RFindSkips | ExcelUtils.py:906 | characters other than c appended to a string do not move its last c |
| CommentRatio.ReadLines | PythonCommentUtils.py:74-75 | a text has no lines exactly when it is empty, and every line is non-empty |
| CommentRatio.ReadLinesJoin | PythonCommentUtils.py:74-77 | the lines put together are the text; each line holds at most one newline, as its last character; every line but the last ends in one |
| CommentRatio.LStrip | PythonCommentUtils.py:80 | removes exactly the leading whitespace |
| CommentRatio.RStrip | PythonCommentUtils.py:80 | removes exactly the trailing whitespace |
| CommentRatio.CommentIff | PythonCommentUtils.py:79-88 | a line counts exactly when its first non-blank characters are #, """ or '''; the two branches that test both ends never fire |
| CommentRatio.StripKeepsStart | PythonCommentUtils.py:80-83 | stripping the end of a line does not change whether it starts with a non-blank prefix |
| CommentRatio.LeadsAfterLStrip | PythonCommentUtils.py:80-83 | a prefix after some run of whitespace is exactly a prefix of the left-stripped line |
| CommentRatio.CountComments | PythonCommentUtils.py:78-88 | the loop's count equals CommentCount of the lines |
| CommentRatio.CommentCountBounds | PythonCommentUtils.py:77-90 | the comment count is at most the number of lines, and equals it exactly when every line is a comment |
| CommentRatio.CommentCountAppend | PythonCommentUtils.py:78-88 | counting two runs of lines adds their counts |
| CommentRatio.RoundThousandths | PythonCommentUtils.py:90 | round(n/d, 3) in thousandths is at most half a thousandth from n/d, and a tie goes to the even neighbour |
| CommentRatio.RatioAtMostOne | PythonCommentUtils.py:90 | the rounded share of at most d lines out of d is at most 1 |
| CommentRatio.CheckCommentRatio | PythonCommentUtils.py:63-96 | an empty file gives (0, None, None); otherwise the line count, the rounded share (at most 1), and True exactly when the share is at least the minimum |
| CommentStrip.StripHash | PythonCommentUtils.py:29 | the # pass never makes the text longer |
| CommentStrip.NoHashLeft | PythonCommentUtils.py:29 | no # survives the # pass |
| CommentStrip.NoHashUnchanged | PythonCommentUtils.py:29 | text without # is left alone |
| CommentStrip.StripHashIdempotent | PythonCommentUtils.py:29 | a second # pass changes nothing |
| CommentStrip.StripLine | PythonCommentUtils.py:29 | on one line, the pass keeps exactly the text before the first # |
| CommentStrip.StripLines | PythonCommentUtils.py:29 | the pass works line by line: each newline is kept and the text after it is stripped on its own |
| CommentStrip.FromNewlineSkips | PythonCommentUtils.py:29 | a comment's text runs up to, not including, the newline that ends its line |
| CommentStrip.FindQuotes | PythonCommentUtils.py:31 | the first """ at or after a position, or none |
| CommentStrip.DocstringsKeepCharacters | PythonCommentUtils.py:31 | the """ pass only deletes: a character absent from the input is absent from the output |
| CommentStrip.NoQuoteUnchanged | PythonCommentUtils.py:31 | text without " is left alone |
| CommentStrip.SpanDeleted | PythonCommentUtils.py:31 | a"""b"""c becomes a followed by the stripped c, when a and b hold no quote: the span ends at the first closing """ |
| CommentStrip.KeptBefore | PythonCommentUtils.py:31 | quote-free text in front of the rest is kept as it is |
| CommentStrip.UnclosedKept | PythonCommentUtils.py:31 | an opening """ that is never closed is kept, with everything after it |
| CommentStrip.RemoveComments | PythonCommentUtils.py:28-31 | mode 0 deletes # comments, mode 1 """ spans, mode 2 both with comments first; any other mode changes nothing |
| CommentStrip.NoCommentsLeft | PythonCommentUtils.py:28-31 | modes 0 and 2 leave no # |
| CommentStrip.PlainCodeUnchanged | PythonCommentUtils.py:28-31 | a file with neither # nor " passes through every mode unchanged |
| CommentStrip.CommentsGoFirst | PythonCommentUtils.py:28-31 | in mode 2 a """ inside a comment vanishes with the comment; mode 1 sees an unclosed opening and keeps the text |
| Calendar.DaysInMonth | DateTimeUtils.py:260 | a month has 28 to 31 days, and 29 exactly for February of a leap year |
| Calendar.DaysBeforeYearClosed | DateTimeUtils.py:260 | the days before year y are 365 per year plus one per leap year: (y-1)*365 + (y-1)/4 - (y-1)/100 + (y-1)/400 |
| Calendar.OrdinalRange | DateTimeUtils.py:260 | every valid date has an ordinal between those of date.min and date.max |
| Calendar.OrdinalIncreasing | DateTimeUtils.py:260 | earlier dates have smaller ordinals |
| Calendar.OrdinalInjective | DateTimeUtils.py:260 | the ordinal determines the date |
| Calendar.NextDayOrdinal | DateTimeUtils.py:260 | stepping to the next calendar day adds one to the ordinal |
| Calendar.FromOrdinal | DateTimeUtils.py:260 | date.fromordinal gives a valid date with that ordinal |
| Calendar.Shift | DateTimeUtils.py:260 | date + timedelta(days=n) succeeds exactly when the result stays within year 1 to year 9999, and then has the ordinal plus n; OverflowError otherwise |
| Calendar.ShiftByOne | DateTimeUtils.py:260 | shifting by one day is the next calendar day, and by zero days changes nothing |
| Calendar.ShiftBack | DateTimeUtils.py:260 | shifting by n and back by n returns the date |
| Calendar.ShiftTwice | DateTimeUtils.py:260 | shifts compose while they stay in range |
| Calendar.WeekDay | DateTimeUtils.py:297 | weekday()+1 lies in 1..7 |
| Calendar.FirstDateIsMonday | DateTimeUtils.py:294-297 | 0001-01-01 was a Monday, weekday 1 |
| Calendar.WeekDayCycles | DateTimeUtils.py:294-297 | the day after a day has the next weekday, Sunday 7 being followed by Monday 1 |
| Calendar.WeekDayAfterAWeek | DateTimeUtils.py:294-297 | seven days later is the same weekday |
| DateFormat.Pad | DateTimeUtils.py:261 | a field written by strftime has exactly its width and only digits |
| DateFormat.PadValue | DateTimeUtils.py:259-261 | reading a padded number gives the number back |
| DateFormat.DigitsValue | DateTimeUtils.py:109 | reading a decimal numeral gives the number back |
| DateFormat.Parse | DateTimeUtils.py:259 | a successful strptime gives a valid datetime, with 1900-01-01 or midnight for the fields the layout does not mention; a failure is ValueError |
| DateFormat.Format | DateTimeUtils.py:261 | strftime writes 10, 8 or 8 characters for the three layouts |
| DateFormat.ParseFormat | DateTimeUtils.py:259-261 | strptime reads back what strftime wrote: the fields the layout shows |
| DateFormat.FormatParse | DateTimeUtils.py:334 | writing back what was read normalises the input to its zero-padded form |
| DateFormat.ParseShortClock | DateTimeUtils.py:109 | "%H:%M:%S" also reads the clock time str(timedelta) writes, whose hour is not padded |
| DateFormat.AlternativeChosen | DateTimeUtils.py:259 | strptime's alternatives are tried in order: the first that leads to a full match is the one used |
| DateTimeUtils.GetDayByCalculate | DateTimeUtils.py:240-261 | ValueError when the input does not parse; OverflowError when the shifted date leaves year 1 to year 9999; otherwise a result |
| DateTimeUtils.GetDayMovesByDays | DateTimeUtils.py:240-261 | with a date layout, the result names the date whose ordinal is the input's plus days |
| DateTimeUtils.GetDayThereAndBack | DateTimeUtils.py:240-261 | moving by n and then by -n returns the input date in its zero-padded form |
| DateTimeUtils.GetDayKeepsClock | DateTimeUtils.py:259-261 | with the clock layout the date is not written back, and the result is the input time zero-padded |
| DateTimeUtils.GetDayExamples | DateTimeUtils.py:251-257 | 2023-05-11 minus 1 day is 2023-05-10; 2023-04-12 plus 1 day is 2023-04-13; 2023-04-12 minus 366 days is 2022-04-11 |
| DateTimeUtils.ShiftDashed | DateTimeUtils.py:259-261 | moving a dashed date at midnight by n days writes the date whose ordinal is n more |
| DateTimeUtils.GetWeekDay | DateTimeUtils.py:286-297 | the weekday, Monday 1 to Sunday 7, of the parsed date; ValueError when the input does not parse |
| DateTimeUtils.WeekDayOfShiftedDay | DateTimeUtils.py:286-297 | a week later is the same weekday, and a day later is the next one |
| DateTimeUtils.ClockWeekDay | DateTimeUtils.py:296-297 | with the clock layout the date is 1900-01-01, a Monday |
| DateTimeUtils.CheckPattern | DateTimeUtils.py:336-356 | never raises: True exactly when strptime succeeds |
| DateTimeUtils.CheckPatternAcceptsFormatted | DateTimeUtils.py:336-356 | whatever strftime writes in a layout passes the check for that layout |
| DateTimeUtils.CheckPatternExamples | DateTimeUtils.py:346-350 | "2023-09-06" fails "%Y%m%d" and passes "%Y-%m-%d" |
| DateTimeUtils.BasicRejectsDashes | DateTimeUtils.py:352-356 | four year digits followed by a dash never match "%Y%m%d" |
| DateTimeUtils.ChangePattern | DateTimeUtils.py:319-334 | succeeds exactly when the input parses in the source layout; ValueError otherwise |
| DateTimeUtils.ChangePatternThereAndBack | DateTimeUtils.py:319-334 | between the two date layouts the date is kept, and converting there and back gives the zero-padded input |
| DateTimeUtils.ChangePatternExample | DateTimeUtils.py:330-332 | "2023-05-11" becomes "20230511" |
| DateTimeUtils.SplitTimes | DateTimeUtils.py:211-238 | succeeds exactly when the input parses; the fields lie in their ranges and microsecond is 0 |
| DateTimeUtils.SplitFormatted | DateTimeUtils.py:229-238 | splitting what strftime wrote gives back the fields the layout shows, with 1900-01-01 or midnight for the others |
| DateTimeUtils.CalculateTimes | DateTimeUtils.py:163-192 | ValueError for an input that does not parse or an unknown mode; "s" is end minus start in seconds; "day" is the floored whole-day difference |
| DateTimeUtils.DaysBetweenShiftedDates | DateTimeUtils.py:176-186 | with a date layout, measuring in days from a date to that date moved by n days gives n |
| DateTimeUtils.SecondsBetweenDates | DateTimeUtils.py:178 | two stamps at the same time of day lie a whole number of days apart in seconds |
| DateTimeUtils.SecondsAntisymmetric | DateTimeUtils.py:176-180 | swapping start and end negates the difference in seconds |
| DateTimeUtils.FormatSecondToTime | DateTimeUtils.py:94-109 | None gives "--:--:--"; OverflowError beyond the day range of timedelta |
| DateTimeUtils.FormatSecondToTimeReadsBack | DateTimeUtils.py:104-109 | within a day, the text is a clock time that "%H:%M:%S" reads back to the same number of seconds after midnight |
| DateTimeUtils.FormatThenMeasure | DateTimeUtils.py:94-109 | the seconds caculate_times measures from "0:00:00" to the text of s seconds are s |
| DateTimeUtils.FormatSecondToTimeExamples | DateTimeUtils.py:94-109 | 0, 3661, 90000 and -1 seconds are "0:00:00", "1:01:01", "1 day, 1:00:00" and "-1 day, 23:59:59" |
| DateTimeUtils.MonthEndDayAsWritten | DateTimeUtils.py:299-317 | raises for a month outside 1..12; otherwise the day before the first of the next month number, built in the current year |
| DateTimeUtils.AsWrittenBeforeDecember | DateTimeUtils.py:311-317 | for January to November the code as written gives the last day of the month |
| DateTimeUtils.AsWrittenDecember | DateTimeUtils.py:311-313 | for December the code as written gives December 31 of the PREVIOUS year, and in year 1 it raises OverflowError |
| DateTimeUtils.LastDayOf | DateTimeUtils.py:299-307 | the last day of a month is a valid date of that month and year |
| DateTimeUtils.MonthEndDay | DateTimeUtils.py:299-317 | raises Exception exactly when the month is outside 1..12 |
| DateTimeUtils.MonthEndDayIsLastDay | DateTimeUtils.py:299-317 | for every month of the current year, the result is the month's last day, whose next day is the first of another month |

## Left out

- Opening, closing and quitting workbooks, Excel applications and files, and the
  creation of a missing workbook in `ExcelUtils.__init__`, are not modelled.
  Styling (fonts, colours, borders, alignment, merged cells, sizes, formulas) is
  not modelled either. These are I/O and library objects; only cell values are
  modelled.
- Excel, openpyxl and xlwt are libraries outside the repository and are not
  part of this model:
  - Cell values are numbers, strings or booleans. Floats, dates and formulas
    are not modelled.
  - xlrd's conversion of numbers to floats is not modelled.
  - openpyxl creates a cell whenever one is addressed, and that raises
    `max_row`, `max_column` and the append cursor. The model follows one rule:
    the writing methods create the cells they address. So `append_value` and
    `insert_values` in "append" mode create the cells of the scanned column,
    taking `maxCol` to the column and `cursor` to `maxRow`. The reading
    methods `get_value`, `get_row_values` and `get_col_values` are modelled
    without the cells they create; the extent is the fields `maxRow` and
    `maxCol`.
  - A sheet grown past row 1048576 by `append_row` is not modelled as
    openpyxl treats it: openpyxl's later scans would raise ValueError there,
    while the model scans those rows.
  - The xlwings used range is approximated by its last row, `lastRow`.
- OpenpyxlSheet.OpenpyxlAdapter.DeleteRow: openpyxl recomputes `max_row` and
  `max_column` from the cells that remain. The model lowers `maxRow` by one
  when the deleted row lies within it, and keeps `maxCol`. So after deleting a
  sheet's last row, or the only row that reaches its last column, the model's
  extent can be larger than openpyxl's. Later scans then return extra trailing
  None cells. The grid does not hold the empty cells openpyxl creates when it
  reads, so the exact extent cannot be recomputed from it. The same holds for
  `DeleteCol`, which calls it.
- The adapter methods take a column as its number. Reading a column name is
  `ColumnLetters.GetColumnIndex`. Excel's own parsing of an address string is
  not modelled.
- `ExcelEngine.Suffix` follows POSIX paths. Windows drive letters and
  backslashes are not modelled, and neither is `Path.resolve()`.
- `remove_comments`: reading and writing the file, the backup copy and
  `autopep8.fix_code` are not modelled. Its two rewrites are modelled on the
  text in memory.
- `remove_folder_comments` and `print_folder_comment_ratio` are not modelled.
  They walk a directory tree and submit work to a thread pool.
- `check_comment_ratio` reads its file with `readlines()`. The model takes the
  text after newline translation, so "\r\n" and "\r" endings are not
  modelled.
- CommentRatio.CheckCommentRatio: the share is rounded from the exact fraction
  and compared exactly with the minimum. Python rounds the float quotient, so
  a quotient that lies on a tie in decimal but not in binary can round the
  other way.
- DateFormat.Format: "%Y" is written with four digits. CPython's output for
  years below 1000 depends on the platform's C library.
- DateFormat.Parse: only the three layouts "%Y-%m-%d", "%Y%m%d" and
  "%H:%M:%S" are modelled. Other format strings are not. `\d` matches ASCII
  digits only.
- DateTimeUtils.CalculateTimes: the "min", "h", "month" and "year" modes give
  the exact quotient `Quotient(num, den)`. The float division and
  `round(…, ndigits_number)` are not modelled. The "s" mode returns the whole
  difference in seconds; `round(d.total_seconds(), ndigits_number)` with a
  negative `ndigits_number` rounds it to tens, hundreds, …, and that is not
  modelled.
- DateTimeUtils.FormatSecondToTime: only whole seconds are modelled. Float
  input and the millisecond output of `keep_millisecond=True` are not.
- DateTimeUtils.MonthEndDayAsWritten: the current year, which the code reads
  from the clock, is a parameter. The other clock-dependent functions (`get_day`,
  `record`, `end_record_and_caculate`, `caculate_timer`) are not modelled.
  Neither are timestamp conversions, because they depend on the time zone.

## Findings

| source | as written | input that shows it | evidently intended | confidence | as-written member | corrected member |
|---|---|---|---|---|---|---|
| ExcelUtils.py:601 | the row scan moves to the next column with `chr(ord(letter) + 1)`, so the column after Z is addressed as "[" | a row whose cells A..Z are all non-empty: the scan reaches the 27th column and Excel refuses the address "[row" | visit the columns AA, AB, … as get_column_letter names them | high, not executed | XlwingsSheet.XlwingsAdapter.GetRowValuesAsWritten | XlwingsSheet.XlwingsAdapter.GetRowValues |
| ExcelUtils.py:694-698 | append_row writes into `used_range.last_cell.row`, the last row in use | a sheet whose last used row holds 7 in column A: `append_row([8])` replaces the 7 | write into the row after the used range, as "append a row at the end of the table" says | high, not executed | XlwingsSheet.XlwingsAdapter.AppendRowAsWritten | XlwingsSheet.XlwingsAdapter.AppendRow |
| DateTimeUtils.py:311-313 | for December the next month is 1 but the year stays the current one | `get_month_end_day(12)` in 2024 builds "2024-01-01" and returns "2023-12-31" | December 31 of the current year | high, not executed | DateTimeUtils.MonthEndDayAsWritten | DateTimeUtils.MonthEndDay |
