# csvtool core, modelled in Dafny

csvtool reads CSV (or other tabular) input and writes it back out as CSV,
as shell variable assignments, as a fixed-width text table or as a
Markdown table. On the way, it can:

- join ranges of fields into one field (`--join`);
- keep only some fields (`--keep`);
- run a row function (`--lambda`);
- read every data cell as a number where it can (`numeric`).

This project models the core of `CSV/csvtool.py` and proves properties of
that model:

- `numeric`, `width`, `parse_range` and `tabfmt`;
- the `ShellWriter` and `TableWriter` classes;
- the cooking of `--join`, `--keep` and `--outfmt`;
- the row loop of `main`.

Modules, one concept each:

| module | file | what it holds |
|---|---|---|
| `Text` | text.dfy | string helpers: strip, split, join, replace, padding |
| `Cells` | cells.dfy | the cell type (`str`, `int`, `float`, `None`), `str()`, truthiness, `width` |
| `Numeric`, `NumeralTexts`, `NumericExamples` | numeric.dfy, numeric_examples.dfy | `numeric` and its documented examples |
| `FieldSpec` | fieldspec.dfy | `parse_range` and Python slicing |
| `Pipeline` | pipeline.dfy | the `--join` and `--keep` row transformations |
| `Options` | options.dfy | cooking `--join`, `--keep` and `--outfmt` |
| `Rows`, `Driver` | driver.dfy | the row loop |
| `Shell` | shellwriter.dfy | `ShellWriter` (a class) |
| `Tables` | tablewriter.dfy | `tabfmt` and `TableWriter` (a class) |
| `Output` | output.dfy | the loop feeding a writer, then the final flush |

How the model represents the program:

- **Cells.** A float is modelled as the exact decimal that was written,
  as `Dec(neg, whole, frac)` with the trailing zeros of the fraction
  dropped. An integral float is narrowed to an `int` by `numeric`.
- **Writers.** The writers are classes whose fields (`vars`, `data`)
  change in place. Their output file is a field `out` holding the lines
  written so far.
- **Loops.** Loops in the source are methods with loop invariants, proved
  against specification functions:
  - `Driver.RunRows` against `Rows.Feed`;
  - `Shell.ShellWriter.WriteRows` against `Shell.Feed`;
  - `Tables.TableWriter.WriteLines` against `Tables.Interleave`.
- **Row function.** The `--lambda` function (an `eval` in the source) is a
  function-valued parameter.
- **Shell quoting.** `shellify`, defined elsewhere in the repository, is a
  function-valued parameter.

## Model

| member | source | states |
|---|---|---|
| Cells.Width | CSV/csvtool.py:58-66 | a string's width is its length; an integer's is the length of its decimal text |
| Cells.FillNulls | CSV/csvtool.py:127-132 | same length; every `None` becomes `none_as` and every other cell is kept; no `None` is left |
| Cells.Texts | CSV/csvtool.py:120-121 | the headings as strings: one `str()` per cell, in order |
| Cells.NatStrValue | CSV/csvtool.py:64 | the decimal text of a natural number reads back as that number |
| Numeric.Clean | CSV/csvtool.py:43-47 | after the currency and comma clean-up no comma is left |
| Numeric.Narrow | CSV/csvtool.py:51-53 | a float becomes an `int` exactly when it is integral, keeping sign and integer part; otherwise it keeps its digits minus trailing zeros |
| Numeric.ParseNumber | CSV/csvtool.py:42-54 | when `int()` or `float()` reads the cleaned text, the result is a number; there is no result exactly when neither of them reads it |
| Numeric.Numeric | CSV/csvtool.py:25-55 | the result is the input unchanged or a number; a string result is always the input itself |
| Numeric.NumericRow | CSV/csvtool.py:549 | the row coerced cell by cell, same length |
| Numeric.MinusNotMatched | CSV/csvtool.py:20-22 | the pattern never matches a text that starts with '-' |
| Numeric.ParseNumberInt | CSV/csvtool.py:48-49 | the text of any integer is read back as that integer |
| Numeric.ParseNumberDec | CSV/csvtool.py:50-54 | the text of any float cell is read back as that float |
| Numeric.NumericByText | CSV/csvtool.py:41-55 | `numeric(x)` is the number `str(x)` parses to, when it parses |
| Numeric.NumericNoParse | CSV/csvtool.py:26-55 | when neither `int()` nor `float()` reads the cleaned text, `numeric(x)` is `x` itself; a string comes back unchanged exactly then |
| Numeric.NumericOfNumber | CSV/csvtool.py:41-55 | `numeric` of an `int` or float cell is that cell |
| Numeric.NumericIdempotent | CSV/csvtool.py:25-55 | coercing twice equals coercing once |
| Numeric.NumericTextIdempotent | CSV/csvtool.py:25-55 | coercing, printing with `str` and coercing again gives the first coercion |
| Numeric.DollarAmount | CSV/csvtool.py:42-49 | "$" plus digits with grouping commas reads as the integer the digits spell |
| Numeric.DollarDecimal | CSV/csvtool.py:42-54 | "$" plus digits with commas plus a fraction reads as that decimal, narrowed |
| Numeric.NumericPointText | CSV/csvtool.py:50-54 | a plain decimal numeral reads as that decimal, narrowed to an `int` when integral |
| Numeric.TextStays | CSV/csvtool.py:41-55 | a text whose first character cannot lead a Python number (see `Numeric.NoNumberAfter`), and is neither ',' nor '$', is returned unchanged |
| Numeric.OtherCurrencyStays | CSV/csvtool.py:21-47 | only "$" is stripped: a value led by any other listed currency symbol is returned unchanged |
| Numeric.NoNumberAfter | CSV/csvtool.py:48-54 | `int()` and `float()` reject a text whose first character is none of: a digit of any script (every non-ASCII character other than the listed currency symbols is set aside), a sign, a point, white space, or the n or i that starts nan, inf or infinity |
| NumericExamples.NumericExampleInt | CSV/csvtool.py:29-30 | `numeric('4')` is 4 |
| NumericExamples.NumericExampleIntegralFloat | CSV/csvtool.py:31-32 | `numeric('4.0000')` is the integer 4 |
| NumericExamples.NumericExampleFloat | CSV/csvtool.py:33-34 | `numeric('3.25')` is the float 3.25 |
| NumericExamples.NumericExampleText | CSV/csvtool.py:35-36 | `numeric('testing')` is 'testing' |
| NumericExamples.NumericExampleDollar | CSV/csvtool.py:37-38 | `numeric('$123,456.789')` is the float 123456.789 |
| NumericExamples.NumericExampleApples | CSV/csvtool.py:26-27 | `numeric('12 apples')` is '12 apples': a numeral followed by a word is not a number |
| FieldSpec.LowerBound | CSV/csvtool.py:81-84 | an empty range start is 0 |
| FieldSpec.UpperBound | CSV/csvtool.py:85-88 | an empty range end means "to the end" |
| FieldSpec.ParsePieces | CSV/csvtool.py:75-89 | more than two dash-separated pieces is an error, and only that; a single field N is the slice [N-1:N] |
| FieldSpec.ParseTokens | CSV/csvtool.py:72-90 | succeeds exactly when every stripped token parses; then one range per token, in order |
| FieldSpec.ParseRange | CSV/csvtool.py:69-90 | a successful parse has at least one range |
| FieldSpec.Clamp | CSV/csvtool.py:556 | Python's resolution of a slice bound: negative bounds count from the end, out-of-range bounds are clamped |
| FieldSpec.Slice | CSV/csvtool.py:556-560 | `s[n:m]` is the elements between the resolved bounds, in order |
| FieldSpec.SliceAssign | CSV/csvtool.py:556 | `s[n:m] = v` keeps everything outside the resolved bounds and puts `v` between them |
| FieldSpec.SliceOfAssign | CSV/csvtool.py:556 | slicing what was just assigned gives it back |
| FieldSpec.AssignOwnSlice | CSV/csvtool.py:556 | assigning a slice its own contents changes nothing |
| FieldSpec.SlicePastEnd | CSV/csvtool.py:556-560 | a slice starting at or past the end is empty |
| FieldSpec.FieldsOfRange | CSV/csvtool.py:77-88 | the 1-based range "a-b" selects fields a..b, clamped to the row |
| FieldSpec.TokenField | CSV/csvtool.py:76-78 | "N" is the slice [N-1:N] |
| FieldSpec.TokenSpan | CSV/csvtool.py:79-88 | "N-M" is the slice [N-1:M] |
| FieldSpec.TokenUpTo | CSV/csvtool.py:81-88 | "-M" is the slice [0:M] |
| FieldSpec.TokenFrom | CSV/csvtool.py:83-86 | "N-" is the slice [N-1:] |
| FieldSpec.TokenAll | CSV/csvtool.py:81-86 | "-" is the slice [0:] |
| FieldSpec.TokenNotInteger | CSV/csvtool.py:76-77 | a single field that `int()` rejects raises, naming that text |
| FieldSpec.TokenBadEnd | CSV/csvtool.py:85-88 | a range end that is neither empty nor an integer raises |
| FieldSpec.TokenEmpty | CSV/csvtool.py:72-77 | an empty token raises |
| FieldSpec.TokenTwoDashes | CSV/csvtool.py:80 | a token with two dashes raises |
| Pipeline.TruthyCells | CSV/csvtool.py:556 | exactly the truthy cells of the range, in order |
| Pipeline.JoinFieldAsWritten | CSV/csvtool.py:556 | raises `TypeError` exactly when a truthy cell is not a string, naming such a cell of the range |
| Pipeline.JoinField | CSV/csvtool.py:556 | the joined field is a string, empty when no cell is truthy |
| Pipeline.JoinRange | CSV/csvtool.py:556 | one range's join: the fields outside the range stay, and the range becomes one joined field |
| Pipeline.ApplyJoins | CSV/csvtool.py:555-556 | the loop reassigning the row equals the ranges applied one after another |
| Pipeline.KeepCells | CSV/csvtool.py:557-561 | every kept cell comes from the row |
| Pipeline.ApplyKeep | CSV/csvtool.py:557-561 | the loop extending a fresh list equals the concatenation of the slices |
| Pipeline.JoinFieldSplits | CSV/csvtool.py:556 | when the separator occurs in no truthy value, splitting the joined field at it gives back their texts |
| Pipeline.JoinFieldLength | CSV/csvtool.py:556 | the joined field is as long as the texts plus one separator between each pair |
| Pipeline.JoinFieldAgrees | CSV/csvtool.py:556 | on string cells the code as written and the joined field agree |
| Pipeline.JoinNumbersRaises | CSV/csvtool.py:549-556 | joining the numbers 1 and 2 raises as written, and gives "1 2" corrected |
| Pipeline.JoinPastEnd | CSV/csvtool.py:556 | a range starting past the end appends one empty field |
| Pipeline.JoinSkipsFalsy | CSV/csvtool.py:556 | empty strings, `None` and 0 are left out of the join |
| Pipeline.JoinInside | CSV/csvtool.py:556 | a range inside the row becomes one field, and the fields around it are kept |
| Pipeline.JoinTwoRightToLeft | CSV/csvtool.py:555-556 | two ascending ranges applied last first join the fields named in the original row |
| Pipeline.JoinAllPrefix | CSV/csvtool.py:555-556 | ranges that lie within the front part of a row join it as they join that part alone, and leave the rest untouched |
| Pipeline.JoinRightToLeft | CSV/csvtool.py:415-418 | any number of non-overlapping ranges, applied last first, each join the fields they name in the original row (`Pipeline.JoinOriginal`) |
| Pipeline.KeepAppend | CSV/csvtool.py:559-560 | keeping by `a + b` is keeping by `a`, then by `b` |
| Pipeline.KeepPastEnd | CSV/csvtool.py:559-560 | ranges past the end keep nothing |
| Pipeline.KeepWholeRow | CSV/csvtool.py:559-560 | "1-" keeps the whole row |
| Pipeline.KeepRepeat | CSV/csvtool.py:559-560 | a repeated range repeats its fields |
| Options.ParseOutFormat | CSV/csvtool.py:425-437 | a rejected value is reported as given |
| Options.OutFormatAccepted | CSV/csvtool.py:425-437 | exactly csv, shell, markdown, table, table-ascii, table-box and table-nosep are accepted |
| Options.OutFormatStyles | CSV/csvtool.py:425-437 | "csv", "shell" and "markdown" select those formats; "table" and "table-box" select a box table; "table-ascii" an ascii table; "table-nosep" a nosep table |
| Options.Reversed | CSV/csvtool.py:418 | the list in the opposite order, element by element |
| Options.ReversedTwice | CSV/csvtool.py:418 | reversing twice gives the list back |
| Options.CookJoin | CSV/csvtool.py:414-420 | an empty spec joins nothing; otherwise the first character is the separator |
| Options.CookJoinReverses | CSV/csvtool.py:414-418 | the cooked ranges are the parsed FIELDSPEC reversed, and reversing them gives the parse back |
| Options.CookKeep | CSV/csvtool.py:423-424 | an empty spec keeps everything; otherwise at least one range |
| Options.Cook | CSV/csvtool.py:414-437 | succeeds exactly when join, keep and outfmt all succeed, and then holds the cooked join, keep ranges and output format; errors are reported in the order join, keep, outfmt |
| Rows.Written | CSV/csvtool.py:552-562 | a dropped row writes nothing; a kept row is written once |
| Rows.Feed | CSV/csvtool.py:543-562 | never more rows written than read |
| Rows.FeedCons | CSV/csvtool.py:543-562 | the first input row is handled before all the others |
| Rows.FeedAppend | CSV/csvtool.py:543-562 | feeding two stretches of input writes the first stretch's rows, then the second's |
| Rows.FeedOne | CSV/csvtool.py:543-562 | one input row is written as its step says |
| Rows.FeedFromInput | CSV/csvtool.py:543-562 | every written row is the step's outcome for some input row, with that row's number |
| Driver.ArgsRow | CSV/csvtool.py:538-539 | the command-line values form one string row when there are any, else none |
| Driver.ReshapeRow | CSV/csvtool.py:555-561 | the row handed on is `Reshape`'s: every join applied in the stored order, then only the kept fields when `--keep` is given |
| Driver.ProcessOne | CSV/csvtool.py:544-561 | what one row becomes matches `ProcessRow`, about which the lemmas below state the rules |
| Driver.RunRows | CSV/csvtool.py:538-562 | the rows handed to `writerow` are the command-line row, then `Rows.Feed` of the input |
| Driver.ArgsFirst | CSV/csvtool.py:538-539 | the command-line values come out first, untouched |
| Driver.HeadingRowRaw | CSV/csvtool.py:545 | heading rows skip `numeric` and the row function, but are still joined and kept |
| Driver.DataRowCoerced | CSV/csvtool.py:545-549 | data rows are coerced by `numeric` before the join and keep |
| Driver.RowFunctionNumbering | CSV/csvtool.py:550-553 | the row function gets the coerced row and a data row number starting at 1; `None` drops the row |
| Driver.PlainRun | CSV/csvtool.py:542-562 | with no options, one output row per input row: headings raw, data coerced |
| Shell.VarName | CSV/csvtool.py:137 | same length; each space becomes '_' and every other character is kept in place; so no spaces remain and no '=' appears that was not there |
| Shell.Assignments | CSV/csvtool.py:135-139 | `zip` pairs names and values up to the shorter list, one assignment each, in order |
| Shell.Feed | CSV/csvtool.py:123-146 | at most one line per row |
| Shell.ShellWriter.constructor | CSV/csvtool.py:107-118 | no names and no output yet |
| Shell.ShellWriter.WriteRow | CSV/csvtool.py:123-142 | with no names, the row becomes the names and nothing is written; otherwise one line is written and the names are kept |
| Shell.ShellWriter.WriteRows | CSV/csvtool.py:144-146 | the names and lines are those of `Shell.Feed` |
| Shell.OneLinePerRow | CSV/csvtool.py:123-142 | once the names are set, each row writes exactly its own line and the names never change |
| Shell.HeadingThenLines | CSV/csvtool.py:120-142 | a fresh writer takes the first row's texts as names, then writes one line per later row |
| Shell.EmptyHeadingRetried | CSV/csvtool.py:124-125 | an empty first row sets no names, so the next row is taken as the headings |
| Shell.LineSplits | CSV/csvtool.py:134-141 | a line holds min(#names, #values) assignments; splitting at ';' returns them, each starting with its name and '=' |
| Shell.NameReadBack | CSV/csvtool.py:137 | a name without '=' is read back by splitting its assignment at '=' |
| Shell.NullWrittenAsNoneAs | CSV/csvtool.py:128-137 | a `None` value is written as `none_as`, quoted |
| Tables.Separators | CSV/csvtool.py:178-187 | nosep is the only style with no divider string; box and ascii separators are three characters with spaces on both sides |
| Tables.Increment | CSV/csvtool.py:153 | adding one to a digit string keeps its length (see `Tables.IncrementValue`) |
| Tables.FixedParts | CSV/csvtool.py:153 | `%f` has six fraction digits |
| Tables.FixedExact | CSV/csvtool.py:153 | a float with at most six fraction digits prints with its digits padded with zeros to six |
| Tables.IncrementValue | CSV/csvtool.py:153 | incrementing a digit string adds one to its value, a carry out being 10^length |
| Tables.FixedRounds | CSV/csvtool.py:153 | `%f`'s six digits are the value rounded half up to millionths |
| Tables.TabFmt | CSV/csvtool.py:149-154 | as long as the width or the text, whichever is longer; numbers right-aligned, everything else left-aligned |
| Tables.MaxOf | CSV/csvtool.py:223 | `reduce(max, ...)`: bounds every element and is one of them |
| Tables.ColumnCells | CSV/csvtool.py:223 | the widths of one column, one per row |
| Tables.Widths | CSV/csvtool.py:222-225 | one width per column of the first row |
| Tables.WidthsFit | CSV/csvtool.py:222-225 | each column is as wide as its widest cell: no cell is wider, and some cell has that width |
| Tables.FirstLong | CSV/csvtool.py:227-231 | the first row with more cells than the widths; every earlier row fits |
| Tables.PaddedCells | CSV/csvtool.py:231 | each cell formatted to its column's width |
| Tables.MarkdownLine | CSV/csvtool.py:213-215 | a Markdown line starts with a bar and a space |
| Tables.MarkdownLineOne | CSV/csvtool.py:213-215 | a one-cell row is written as a bar, a space and the cell's `str()` |
| Tables.MarkdownLineSnoc | CSV/csvtool.py:213-215 | each further cell adds a space, a bar, a space and its `str()` at the end of the line; with `MarkdownLineOne` this fixes the whole line |
| Tables.MarkdownLineLength | CSV/csvtool.py:213-215 | a Markdown line is two leading characters, then the cell texts, then a three-character separator between each two, in length |
| Tables.FilledRows | CSV/csvtool.py:195-206 | the rows recorded, `None` cells replaced, one per row |
| Tables.FilledRowsNoNulls | CSV/csvtool.py:195 | the rows collected never hold `None` |
| Tables.BoxDivider | CSV/csvtool.py:239-241 | the box style's divider joint is "─┼─" |
| Tables.AsciiDivider | CSV/csvtool.py:239-241 | the ascii style's divider joint is "-+-" |
| Tables.InterleaveLength | CSV/csvtool.py:227-243 | a table has one line per row plus the lines written after rows |
| Tables.TableWriter.constructor | CSV/csvtool.py:175-189 | the style's separators and no rows; the heading count is a constructor argument |
| Tables.TableWriter.MarkdownAfter | CSV/csvtool.py:218-219 | a bar-dash line with one bar-dash pair per cell, after row `heading_lines - 1` only |
| Tables.TableWriter.WriteRow | CSV/csvtool.py:191-195 | records the row with `None` filled in; writes nothing |
| Tables.TableWriter.WriteRows | CSV/csvtool.py:197-245 | with rows: records each. Without rows: no data writes nothing; Markdown writes the whole table and empties the buffer; fixed-width with a row shorter than the first fails with no output; otherwise writes up to the first row longer than the first, empties the buffer only when all were written |
| Tables.TableWriter.WriteMarkdown | CSV/csvtool.py:208-245 | writes each line, then its bar-dash line if any, and empties the buffer |
| Tables.TableWriter.WriteFixed | CSV/csvtool.py:221-245 | no output if a row is shorter than the first; otherwise the table up to the first longer row; the buffer is emptied only on success |
| Tables.TableWriter.WriteLines | CSV/csvtool.py:227-245 | stops at the first row wider than the widths, having written every earlier row and its divider |
| Tables.TableWriter.FlushAsWritten | CSV/csvtool.py:208-235 | as written, only the first line comes out before `NameError` |
| Tables.TableWriter.FlushAsWrittenLosesRows | CSV/csvtool.py:218 | with two rows or more, the as-written flush writes fewer lines than the table has |
| Tables.TableWriter.MarkdownFirst | CSV/csvtool.py:210-216 | the first Markdown line is the first row's |
| Tables.TableWriter.FixedFirst | CSV/csvtool.py:227-234 | the first fixed-width line is the first row's |
| Tables.TableWriter.MarkdownCount | CSV/csvtool.py:210-219 | a line per row, plus one bar-dash line when the heading rows are present |
| Tables.TableWriter.FixedCount | CSV/csvtool.py:227-243 | a line per row, plus a divider after each heading row written, none in nosep style |
| Tables.TableWriter.Aligned | CSV/csvtool.py:222-234 | rectangular rows without floats give lines of equal length: the column widths plus the separators |
| Tables.TableWriter.DividerAligned | CSV/csvtool.py:235-243 | in box and ascii style the divider is as long as a full row line |
| Output.CookedConfig | CSV/csvtool.py:414-424 | the loop joins with the first character of `--join` and its ranges reversed, and keeps the `--keep` ranges in order; a missing option joins or drops nothing |
| Output.CookedJoins | CSV/csvtool.py:414-418 | for ascending, non-overlapping `--join` ranges, however many, the loop's join joins the fields each range names in the input row |
| Output.RunShell | CSV/csvtool.py:519-562 | for `--outfmt shell`, a fresh shell writer with the default `none_as` ends with the names and lines `Shell.Feed` gives for the rows of the loop run with the cooked settings |
| Output.CollectAndFlush | CSV/csvtool.py:562-566 | a table writer with nothing collected, given rows one by one and then flushed, ends as its flush of those rows, `None` filled in, says |
| Output.RunTable | CSV/csvtool.py:521-566 | for the cooked settings, the writer is Markdown exactly for the Markdown format (which `Options.OutFormatStyles` ties to `--outfmt markdown`), otherwise fixed-width in the chosen style; its heading count is the loop's; it ends with the whole table of the loop's rows, or the fixed-width table cut at the first long row |

## Left out

- I/O: reading stdin and writing stdout are left out. Input is a
  sequence of rows, and each writer's output is the sequence of lines it
  writes.
- The input readers are not part of this model: the `csv` reader, the
  xlrd worksheet reader and the shlex shell reader (lines 459-514). They
  are external libraries.
- CSV output is left out, along with the `--reading`/`--writing` dialects.
  It is `csv.writer` from the standard library.
- Argument parsing, help text, `--debug` tracing and the doctest mode
  (lines 302-412 and 528-535) are left out.
- `die` and the exit codes are not modelled: errors are `Result` values.
- `--lambda`: the `eval` of the expression is not modelled. The compiled
  function is a parameter.
- `shellify`: its quoting rules are not modelled. It is a parameter,
  because it lives in another module of the repository.
- Floats are exact decimals in positional notation. Not modelled:
  - binary rounding;
  - exponents, `inf`, `infinity` and `nan`;
  - underscores in numerals;
  - Unicode digits;
  - `repr`'s switch to exponent notation.
- Tables.FixedParts: `%f` rounds the exact written decimal half up.
  Python rounds the binary double half to even, so the two can differ in
  the sixth digit.
- Tables.TableWriter.Aligned: proved only for tables without floats. The
  width of a float column is measured from `str()`, but the cell is
  printed with `%f`, so a float line can be longer.
- Tables.TableWriter.FixedLines: is left as "" for a row longer than the
  widths. Such a row is never written, since the write stops with
  `IndexError` there.
- Custom separators are not modelled: the `col_sep`/`head_sep`
  constructor flags, and styles other than box, ascii and nosep. `main`
  never passes them.
- Tables.TableWriter.WriteRows: the fixed-width divider is written after
  each of the first `heading_lines` rows, as the code does (line 235,
  `r < heading_lines`). A Markdown table gets one `|-` line.
- Driver.RunRows: the join is the corrected `Pipeline.JoinField`; see
  Findings. Joining numeric cells as written raises `TypeError`.
- Output.RunTable: the heading count reaches the table writer as a
  constructor argument, set to the loop's own count; see Findings.
- Numeric.Numeric: texts such as "nan", "inf" or "-Infinity", and numerals
  in non-ASCII digits, stay strings in the model. Python's `float()` and
  `int()` read them as numbers.
- Numeric.ParseNumber: integers are unbounded. Python 3.11 and later
  (which the package requires) refuse `int()` of a text of more than 4300
  digits, and `float()` then reads such a numeral, or any numeral above
  about 1.8e308, as `inf`. The model reads them as exact numbers.
- FieldSpec.LowerBound, FieldSpec.UpperBound: for the same reason, a range
  bound of more than 4300 digits is accepted by the model, while
  `parse_range` raises `ValueError` for it.
- Driver.Config: the row function's results are limited to what a cell
  can be: strings, integers, decimals with a non-zero last fraction digit,
  and `None`. A `--lambda` that returns an integral float (such as
  `r[0] / 2` on 4, which Python writes as "2.0") or a bool is not modelled.
- Output.RunShell: rows are handed over once the loop has finished. The
  code hands each row over as soon as it is made. That yields the same
  lines, since the writer only appends.

## Findings

| source | as written | input that shows it | evidently intended | confidence | as-written member | corrected member |
|---|---|---|---|---|---|---|
| CSV/csvtool.py:549-556 | data rows are coerced by `numeric` before `--join`, and `str.join` raises `TypeError` on a non-string item | `--join ' 1-2'` on the data row `1,2`: the cells are the ints 1 and 2 | join the texts of the cells, giving "1 2" | not executed | Pipeline.JoinFieldAsWritten, Pipeline.JoinNumbersRaises | Pipeline.JoinField |
| CSV/csvtool.py:218-235 | `TableWriter.writerows` reads `opt.heading_lines`, but `opt` is a local variable of `main`, so the lookup raises `NameError` after the first line | `--outfmt markdown` on any input of two rows or more | the heading count given to the writer, with every row written | not executed | Tables.TableWriter.FlushAsWritten, Tables.TableWriter.FlushAsWrittenLosesRows | Tables.TableWriter.WriteRows |
