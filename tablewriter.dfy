/** csvtool's `TableWriter`: rows are only collected by `writerow`; a call
    of `writerows()` without rows writes them all out, either as Markdown
    (`| a | b` lines, with a `|-|-` line under the last heading row) or as a
    fixed-width table whose columns are as wide as their widest cell, with a
    divider line under heading rows. Output is modelled as the sequence of
    lines written. */
module Tables {
  import opened Text
  import opened Cells

  /** How a fixed-width table separates its columns and heading rows. */
  datatype Style = Box | Ascii | NoSep

  /** Lines 178-187: the column separator and the heading-divider string of
      each style. */
  function Separators(style: Style): (r: (string, string))
    ensures style == NoSep <==> r.1 == ""
    ensures |r.0| == if style == NoSep then 1 else 3
    ensures style != NoSep ==> |r.1| == 1 && r.0[0] == ' ' && r.0[2] == ' '
  {
    match style
    case Box => (" │ ", "─")
    case Ascii => (" | ", "-")
    case NoSep => (" ", "")
  }

  // ---------------------------------------------------------------------
  // tabfmt

  /** `10 ** n`. */
  function Pow10(n: nat): (r: nat)
    ensures r >= 1
  {
    if n == 0 then 1 else 10 * Pow10(n - 1)
  }

  /** The first six digits after the point, padded with zeros. */
  function SixDigits(frac: string): (r: string)
    requires AllDigits(frac)
    ensures |r| == 6 && AllDigits(r)
  {
    if |frac| >= 6 then frac[..6] else frac + Repeat("0", 6 - |frac|)
  }

  /** Adding one to a string of digits, keeping its length: the new digits
      and whether a carry falls off the front. */
  function Increment(d: string): (r: (string, bool))
    requires AllDigits(d)
    ensures |r.0| == |d| && AllDigits(r.0)
    decreases |d|
  {
    if |d| == 0 then ("", true)
    else if d[|d| - 1] == '9' then
      var (p, carry) := Increment(d[..|d| - 1]);
      (p + "0", carry)
    else (d[..|d| - 1] + [(d[|d| - 1] as int + 1) as char], false)
  }

  /** Whether "%f" rounds the fraction up: a seventh digit of 5 or more. */
  predicate RoundsUp(frac: string)
  {
    |frac| > 6 && frac[6] >= '5'
  }

  /** The integer part and six fraction digits "%f" prints for `whole.frac`. */
  function FixedParts(whole: nat, frac: Fraction): (r: (nat, string))
    ensures |r.1| == 6 && AllDigits(r.1)
  {
    var d := SixDigits(frac);
    if RoundsUp(frac) then
      var (f, carry) := Increment(d);
      (if carry then whole + 1 else whole, f)
    else (whole, d)
  }

  /** `"%f" % x` for a float cell: sign, integer part, point, six digits. */
  function FixedText(neg: bool, whole: nat, frac: Fraction): string
  {
    var (w, f) := FixedParts(whole, frac);
    Sign(neg) + NatStr(w) + "." + f
  }

  /** The text `tabfmt` pads: "%d" for an integer, "%f" for a float, `str`
      for anything else. */
  function Formatted(v: Cell): string
  {
    match v
    case Int(n) => IntStr(n)
    case Dec(neg, whole, frac) => FixedText(neg, whole, frac)
    case _ => PyStr(v)
  }

  /** Lines 149-154: numbers are right-aligned and everything else
      left-aligned in a field of `width` characters, which a longer text
      overflows. */
  function TabFmt(v: Cell, width: int): (r: string)
    ensures |r| == if |Formatted(v)| < width then width else |Formatted(v)|
    ensures v.Int? || v.Dec? ==>
      r[|r| - |Formatted(v)|..] == Formatted(v) && forall k :: 0 <= k < |r| - |Formatted(v)| ==> r[k] == ' '
    ensures !(v.Int? || v.Dec?) ==>
      r[..|Formatted(v)|] == Formatted(v) && forall k :: |Formatted(v)| <= k < |r| ==> r[k] == ' '
  {
    if v.Int? || v.Dec? then PadLeft(Formatted(v), width) else PadRight(Formatted(v), width)
  }

  // ---------------------------------------------------------------------
  // Column widths

  /** `reduce(max, ws)`: the largest of a non-empty list, folded from the left. */
  function MaxOf(ws: seq<nat>): (m: nat)
    requires |ws| > 0
    ensures forall k :: 0 <= k < |ws| ==> ws[k] <= m
    ensures exists k :: 0 <= k < |ws| && ws[k] == m
    decreases |ws|
  {
    if |ws| == 1 then ws[0]
    else
      var front := ws[..|ws| - 1];
      assert forall k :: 0 <= k < |front| ==> front[k] == ws[k];
      var m0 := MaxOf(front);
      if m0 < ws[|ws| - 1] then ws[|ws| - 1] else m0
  }

  /** The widths of column `c`, row by row. */
  function ColumnCells(data: seq<Row>, c: nat): (ws: seq<nat>)
    requires forall r :: 0 <= r < |data| ==> c < |data[r]|
    ensures |ws| == |data|
    ensures forall r :: 0 <= r < |data| ==> ws[r] == Width(data[r][c])
  {
    seq(|data|, r requires 0 <= r < |data| && c < |data[r]| => Width(data[r][c]))
  }

  /** Every row has at least as many cells as the first, so that every
      column of the first row has a width. */
  predicate Wide(data: seq<Row>)
  {
    |data| > 0 && forall r :: 0 <= r < |data| ==> |data[r]| >= |data[0]|
  }

  /** Lines 222-225: one width per column of the first row. */
  function Widths(data: seq<Row>): (wid: seq<nat>)
    requires Wide(data)
    ensures |wid| == |data[0]|
  {
    seq(|data[0]|, c requires 0 <= c < |data[0]| && Wide(data) => MaxOf(ColumnCells(data, c)))
  }

  /** The position of the first row with more than `n` cells, or the number
      of rows when there is none. */
  function FirstLong(data: seq<Row>, n: nat): (b: nat)
    ensures b <= |data|
    ensures forall r :: 0 <= r < b ==> |data[r]| <= n
    ensures b < |data| ==> |data[b]| > n
    decreases |data|
  {
    if |data| == 0 then 0
    else if |data[0]| > n then 0
    else
      var b := FirstLong(data[1..], n);
      assert forall r :: 0 < r <= b ==> data[r] == data[1..][r - 1];
      1 + b
  }

  /** The sum of a list of widths. */
  function Sum(wid: seq<nat>): nat
  {
    if |wid| == 0 then 0 else wid[0] + Sum(wid[1..])
  }

  // ---------------------------------------------------------------------
  // Lines

  /** Each cell of a row formatted to the width of its column. */
  function PaddedCells(row: Row, wid: seq<nat>): (r: seq<string>)
    requires |row| <= |wid|
    ensures |r| == |row|
    ensures forall c :: 0 <= c < |r| ==> r[c] == TabFmt(row[c], wid[c])
  {
    seq(|row|, c requires 0 <= c < |row| => TabFmt(row[c], wid[c]))
  }

  /** A fixed-width line: the padded cells joined by the column separator. */
  function RowLine(row: Row, wid: seq<nat>, colSep: string): string
    requires |row| <= |wid|
  {
    Join(colSep, PaddedCells(row, wid))
  }

  /** The separator of the divider line: in the column separator, spaces
      become the heading character, '│' becomes '┼' and '|' becomes '+'. */
  function DividerSep(colSep: string, headSep: string): string
  {
    ReplaceChar(ReplaceChar(ReplaceChar(colSep, ' ', headSep), '│', "┼"), '|', "+")
  }

  /** The divider under a heading row of `n` cells: each column's width of
      heading characters, joined by the divider separator. */
  function Divider(colSep: string, headSep: string, wid: seq<nat>, n: nat): (r: string)
    requires n <= |wid|
  {
    Join(DividerSep(colSep, headSep), seq(n, c requires 0 <= c < n => Repeat(headSep, wid[c])))
  }

  /** A Markdown line: "| " and the cells' texts joined by " | ". */
  function MarkdownLine(row: Row): (r: string)
    ensures |r| >= 2 && r[..2] == "| "
  {
    "| " + Join(" | ", Texts(row))
  }

  /** A Markdown line is "| ", the cells' texts, and " | " between each two. */
  lemma MarkdownLineLength(row: Row)
    requires |row| > 0
    ensures |MarkdownLine(row)| == 2 + TotalLength(Texts(row)) + 3 * (|row| - 1)
  {
    JoinLength(" | ", Texts(row));
  }

  /** A one-cell row is written as "| " and the cell's text. */
  lemma MarkdownLineOne(c: Cell)
    ensures MarkdownLine([c]) == "| " + PyStr(c)
  {
    assert Texts([c]) == [PyStr(c)];
  }

  /** Each further cell adds " | " and its text: with `MarkdownLineOne`, this
      fixes the whole line. */
  lemma MarkdownLineSnoc(row: Row, c: Cell)
    requires |row| > 0
    ensures MarkdownLine(row + [c]) == MarkdownLine(row) + " | " + PyStr(c)
  {
    assert Texts(row + [c]) == Texts(row) + [PyStr(c)];
    JoinSnoc(" | ", Texts(row), PyStr(c));
  }

  /** The lines of the first `k` rows of a table: each row's line, then the
      lines that follow it (a divider, or none). */
  function Interleave(lines: seq<string>, after: seq<seq<string>>, k: nat): seq<string>
    requires k <= |lines| && k <= |after|
  {
    if k == 0 then [] else Interleave(lines, after, k - 1) + [lines[k - 1]] + after[k - 1]
  }

  /** The number of lines that follow the first `k` rows. */
  function Extra(after: seq<seq<string>>, k: nat): nat
    requires k <= |after|
  {
    if k == 0 then 0 else Extra(after, k - 1) + |after[k - 1]|
  }

  /** Every row's cells are free of `None`. */
  predicate NoNulls(data: seq<Row>)
  {
    forall r, k :: 0 <= r < |data| && 0 <= k < |data[r]| ==> !data[r][k].Null?
  }

  /** The rows as `writerow` stores them. */
  function FilledRows(rows: seq<Row>, noneAs: string): (r: seq<Row>)
    ensures |r| == |rows|
    ensures forall k :: 0 <= k < |r| ==> r[k] == FillNulls(rows[k], noneAs)
  {
    seq(|rows|, k requires 0 <= k < |rows| => FillNulls(rows[k], noneAs))
  }

  class TableWriter {
    const noneAs: string
    const style: Style
    const colSep: string := Separators(style).0
    const headSep: string := Separators(style).1
    const markdown: bool
    /** The number of heading rows (`--heading-lines`). */
    const headingLines: int
    /** The rows collected so far. */
    var data: seq<Row>
    /** The lines written so far. */
    var out: seq<string>

    /** Lines 175-190. */
    constructor(noneAs: string, style: Style, markdown: bool, headingLines: int)
      ensures this.noneAs == noneAs && this.style == style && this.markdown == markdown
      ensures this.headingLines == headingLines
      ensures (colSep, headSep) == Separators(style)
      ensures data == [] && out == []
    {
      this.noneAs := noneAs;
      this.style := style;
      this.markdown := markdown;
      this.headingLines := headingLines;
      data := [];
      out := [];
    }

    /** The Markdown line of each row. */
    function MarkdownLines(rows: seq<Row>): (l: seq<string>)
      ensures |l| == |rows|
      ensures forall r :: 0 <= r < |rows| ==> l[r] == MarkdownLine(rows[r])
    {
      seq(|rows|, r requires 0 <= r < |rows| => MarkdownLine(rows[r]))
    }

    /** The line after Markdown row `r`: `|-` for every cell, after the
        last heading row only. */
    function MarkdownAfter(rows: seq<Row>): (a: seq<seq<string>>)
      ensures |a| == |rows|
      ensures forall r :: 0 <= r < |rows| ==>
        a[r] == if headingLines > 0 && r == headingLines - 1 then [Repeat("|-", |rows[r]|)] else []
    {
      seq(|rows|, r requires 0 <= r < |rows| =>
        if headingLines > 0 && r == headingLines - 1 then [Repeat("|-", |rows[r]|)] else [])
    }

    /** The Markdown lines of the first `k` rows. */
    function MarkdownTable(rows: seq<Row>, k: nat): seq<string>
      requires k <= |rows|
    {
      Interleave(MarkdownLines(rows), MarkdownAfter(rows), k)
    }

    /** The fixed-width line of each row that fits the widths. */
    function FixedLines(rows: seq<Row>, wid: seq<nat>): (l: seq<string>)
      ensures |l| == |rows|
    {
      seq(|rows|, r requires 0 <= r < |rows| => if |rows[r]| <= |wid| then RowLine(rows[r], wid, colSep) else "")
    }

    /** The divider after each of the first `headingLines` rows, unless the
        style has none. */
    function FixedAfter(rows: seq<Row>, wid: seq<nat>): (a: seq<seq<string>>)
      ensures |a| == |rows|
    {
      seq(|rows|, r requires 0 <= r < |rows| =>
        if headingLines > 0 && r < headingLines && style != NoSep && |rows[r]| <= |wid|
        then [Divider(colSep, headSep, wid, |rows[r]|)] else [])
    }

    /** The fixed-width lines of the first `k` rows. */
    function FixedTable(rows: seq<Row>, wid: seq<nat>, k: nat): seq<string>
      requires k <= |rows|
    {
      Interleave(FixedLines(rows, wid), FixedAfter(rows, wid), k)
    }

    /** Line 195: `writerow` only records the row, `None` cells replaced. */
    method WriteRow(row: Row)
      modifies this
      ensures data == old(data) + [FillNulls(row, noneAs)]
      ensures out == old(out)
    {
      data := data + [FillNulls(row, noneAs)];
    }

    /** Lines 197-245. With rows, record each; without, write out what was
        collected and forget it. `ok` is false when the fixed-width layout
        raises `IndexError`: a row shorter than the first stops it before
        any output, a row longer than the first stops it when that row is
        reached; either way the collected rows are kept. */
    method WriteRows(rows: Option<seq<Row>>) returns (ok: bool)
      modifies this
      ensures rows.Some? ==> ok && data == old(data) + FilledRows(rows.value, noneAs) && out == old(out)
      ensures rows.None? && old(data) == [] ==> ok && data == [] && out == old(out)
      ensures rows.None? && old(data) != [] && markdown ==>
        ok && data == [] && out == old(out) + MarkdownTable(old(data), |old(data)|)
      ensures rows.None? && old(data) != [] && !markdown && !Wide(old(data)) ==>
        !ok && data == old(data) && out == old(out)
      ensures rows.None? && old(data) != [] && !markdown && Wide(old(data)) ==>
        var b := FirstLong(old(data), |old(data)[0]|);
        ok == (b == |old(data)|)
        && out == old(out) + FixedTable(old(data), Widths(old(data)), b)
        && data == if ok then [] else old(data)
    {
      ok := true;
      if rows.Some? {
        var i := 0;
        while i < |rows.value|
          invariant 0 <= i <= |rows.value|
          invariant data == old(data) + FilledRows(rows.value[..i], noneAs)
          invariant out == old(out)
        {
          WriteRow(rows.value[i]);
          assert FilledRows(rows.value[..i + 1], noneAs) == FilledRows(rows.value[..i], noneAs) + [FillNulls(rows.value[i], noneAs)];
          i := i + 1;
        }
        assert rows.value[..i] == rows.value;
      } else if data != [] {
        if markdown {
          WriteMarkdown(MarkdownLines(data), MarkdownAfter(data));
        } else {
          ok := WriteFixed();
        }
      }
    }

    /** Lines 208-219 and 245, given each row's line and the lines that
        follow it (`MarkdownLines`, `MarkdownAfter`): write them row by row,
        then forget the rows. */
    method WriteMarkdown(lines: seq<string>, after: seq<seq<string>>)
      requires |lines| == |after| == |data|
      modifies this
      ensures data == [] && out == old(out) + Interleave(lines, after, |lines|)
    {
      var r := 0;
      while r < |data|
        invariant 0 <= r <= |data| && data == old(data)
        invariant out == old(out) + Interleave(lines, after, r)
      {
        out := out + [lines[r]] + after[r];
        r := r + 1;
      }
      data := [];
    }

    /** Lines 221-245: the widths, when every row reaches them, then the
        rows' lines. */
    method WriteFixed() returns (ok: bool)
      requires data != []
      modifies this
      ensures !Wide(old(data)) ==> !ok && data == old(data) && out == old(out)
      ensures Wide(old(data)) ==>
        var b := FirstLong(old(data), |old(data)[0]|);
        ok == (b == |old(data)|)
        && out == old(out) + FixedTable(old(data), Widths(old(data)), b)
        && data == if ok then [] else old(data)
    {
      if !Wide(data) {
        return false;
      }
      var wid := Widths(data);
      ok := WriteLines(FixedLines(data, wid), FixedAfter(data, wid), |wid|);
    }

    /** Lines 227-245, given each row's line and the divider that follows
        it (`FixedLines`, `FixedAfter`) for `n` columns: write them row by
        row, stopping with `IndexError` at the first row with more than `n`
        cells; forget the rows when all were written. */
    method WriteLines(lines: seq<string>, after: seq<seq<string>>, n: nat) returns (ok: bool)
      requires |lines| == |after| == |data|
      modifies this
      ensures var b := FirstLong(old(data), n);
        ok == (b == |old(data)|)
        && out == old(out) + Interleave(lines, after, b)
        && data == if ok then [] else old(data)
    {
      var r := 0;
      while r < |data|
        invariant 0 <= r <= |data| && data == old(data)
        invariant forall k :: 0 <= k < r ==> |data[k]| <= n
        invariant out == old(out) + Interleave(lines, after, r)
      {
        if |data[r]| > n {
          assert r == FirstLong(data, n);
          return false;
        }
        out := out + [lines[r]] + after[r];
        r := r + 1;
      }
      assert r == FirstLong(data, n);
      data := [];
      return true;
    }

    /** `writerows()` as written: the first line is written, then the test
        of the heading count looks up `opt`, which is a local of `main`, not
        a global, so the flush stops with `NameError` and keeps its rows. */
    function FlushAsWritten(rows: seq<Row>): (r: seq<string>)
      requires |rows| > 0 && (markdown || Wide(rows))
      ensures |r| == 1
      ensures markdown ==> r[0] == MarkdownTable(rows, |rows|)[0]
      ensures !markdown ==> r[0] == FixedTable(rows, Widths(rows), FirstLong(rows, |rows[0]|))[0]
    {
      if markdown then
        MarkdownFirst(rows, |rows|);
        [MarkdownLine(rows[0])]
      else
        var wid := Widths(rows);
        FixedFirst(rows, wid, FirstLong(rows, |rows[0]|));
        [RowLine(rows[0], wid, colSep)]
    }

    // -------------------------------------------------------------------
    // Properties

    /** The first Markdown line is the first row's. */
    lemma MarkdownFirst(rows: seq<Row>, k: nat)
      requires 1 <= k <= |rows|
      ensures |MarkdownTable(rows, k)| >= 1 && MarkdownTable(rows, k)[0] == MarkdownLine(rows[0])
    {
      InterleaveFirst(MarkdownLines(rows), MarkdownAfter(rows), k);
    }

    /** The first fixed-width line is the first row's. */
    lemma FixedFirst(rows: seq<Row>, wid: seq<nat>, k: nat)
      requires 1 <= k <= |rows| && |rows[0]| <= |wid|
      ensures |FixedTable(rows, wid, k)| >= 1 && FixedTable(rows, wid, k)[0] == RowLine(rows[0], wid, colSep)
    {
      InterleaveFirst(FixedLines(rows, wid), FixedAfter(rows, wid), k);
    }

    /** With two rows or more the as-written flush loses lines: it writes one,
        where the flush with a known heading count writes a line per row. */
    lemma FlushAsWrittenLosesRows(rows: seq<Row>)
      requires |rows| >= 2 && markdown
      ensures |FlushAsWritten(rows)| < |MarkdownTable(rows, |rows|)|
    {
      MarkdownCount(rows);
    }

    /** A Markdown table has a line per row, plus one `|-` line when the
        heading rows are among them. */
    lemma MarkdownCount(rows: seq<Row>)
      ensures |MarkdownTable(rows, |rows|)| == |rows| + if 0 < headingLines <= |rows| then 1 else 0
    {
      var after := MarkdownAfter(rows);
      InterleaveLength(MarkdownLines(rows), after, |rows|);
      if headingLines > 0 {
        ExtraAt(after, |rows|, headingLines - 1);
      } else {
        ExtraAt(after, |rows|, -1);
      }
    }

    /** A fixed-width table has a line per row, plus a divider after each
        heading row present, unless the style has no dividers. */
    lemma FixedCount(rows: seq<Row>, wid: seq<nat>, k: nat)
      requires k <= |rows| && forall r :: 0 <= r < k ==> |rows[r]| <= |wid|
      ensures |FixedTable(rows, wid, k)| ==
        k + if headingLines <= 0 || style == NoSep then 0 else if headingLines < k then headingLines else k
    {
      var after := FixedAfter(rows, wid);
      InterleaveLength(FixedLines(rows, wid), after, k);
      ExtraLeading(after, k, if headingLines <= 0 || style == NoSep then 0 else headingLines);
    }

    /** In a table whose rows all have as many cells as the first and hold no
        float, every line is equally long: each column is exactly as wide as
        its widest cell. */
    lemma Aligned(rows: seq<Row>, r: nat)
      requires Wide(rows) && r < |rows| && |rows[0]| > 0
      requires forall k :: 0 <= k < |rows| ==> |rows[k]| == |rows[0]|
      requires forall k, c :: 0 <= k < |rows| && 0 <= c < |rows[k]| ==> !rows[k][c].Dec?
      ensures |RowLine(rows[r], Widths(rows), colSep)| == Sum(Widths(rows)) + |colSep| * (|rows[0]| - 1)
    {
      var wid := Widths(rows);
      var cells := PaddedCells(rows[r], wid);
      forall c | 0 <= c < |cells|
        ensures |cells[c]| == wid[c]
      {
        FormattedWidth(rows[r][c]);
        WidthsFit(rows, c);
      }
      SumOfLengths(cells, wid);
      JoinLength(colSep, cells);
    }

    /** In the box and ASCII styles the divider is as long as the lines it
        separates. */
    lemma DividerAligned(wid: seq<nat>)
      requires style != NoSep && |wid| > 0
      ensures |Divider(colSep, headSep, wid, |wid|)| == Sum(wid) + |colSep| * (|wid| - 1)
    {
      var parts := seq(|wid|, c requires 0 <= c < |wid| => Repeat(headSep, wid[c]));
      SumOfLengths(parts, wid);
      JoinLength(DividerSep(colSep, headSep), parts);
      DividerSepLength(colSep, headSep);
    }
  }

  // ---------------------------------------------------------------------
  // Properties

  /** The first line of a non-empty table is its first row's. */
  lemma {:induction false} InterleaveFirst(lines: seq<string>, after: seq<seq<string>>, k: nat)
    requires 1 <= k <= |lines| && k <= |after|
    ensures |Interleave(lines, after, k)| >= 1 && Interleave(lines, after, k)[0] == lines[0]
    decreases k
  {
    if k > 1 {
      InterleaveFirst(lines, after, k - 1);
    }
  }

  /** A table has one line per row plus the lines that follow rows. */
  lemma {:induction false} InterleaveLength(lines: seq<string>, after: seq<seq<string>>, k: nat)
    requires k <= |lines| && k <= |after|
    ensures |Interleave(lines, after, k)| == k + Extra(after, k)
    decreases k
  {
    if k > 0 {
      InterleaveLength(lines, after, k - 1);
    }
  }

  /** One following line after each of the first `d` rows: `min(d, k)` in all. */
  lemma {:induction false} ExtraLeading(after: seq<seq<string>>, k: nat, d: int)
    requires k <= |after|
    requires forall r :: 0 <= r < k ==> |after[r]| == if r < d then 1 else 0
    ensures Extra(after, k) == if d <= 0 then 0 else if d < k then d else k
    decreases k
  {
    if k > 0 {
      ExtraLeading(after, k - 1, d);
    }
  }

  /** One following line after row `j` only: one line if that row is present. */
  lemma {:induction false} ExtraAt(after: seq<seq<string>>, k: nat, j: int)
    requires k <= |after|
    requires forall r :: 0 <= r < k ==> |after[r]| == if r == j then 1 else 0
    ensures Extra(after, k) == if 0 <= j < k then 1 else 0
    decreases k
  {
    if k > 0 {
      ExtraAt(after, k - 1, j);
    }
  }

  /** Each column is as wide as its widest cell: no cell of the column is
      wider, and some cell is exactly as wide. */
  lemma WidthsFit(data: seq<Row>, c: nat)
    requires Wide(data) && c < |data[0]|
    ensures forall r :: 0 <= r < |data| ==> Width(data[r][c]) <= Widths(data)[c]
    ensures exists r :: 0 <= r < |data| && Width(data[r][c]) == Widths(data)[c]
  {
    var ws := ColumnCells(data, c);
    assert Widths(data)[c] == MaxOf(ws);
    forall r | 0 <= r < |data|
      ensures Width(data[r][c]) <= Widths(data)[c]
    {
      assert ws[r] == Width(data[r][c]);
    }
    var k :| 0 <= k < |ws| && ws[k] == MaxOf(ws);
    assert Width(data[k][c]) == Widths(data)[c];
  }

  /** Apart from floats, the text `tabfmt` pads is exactly as long as the
      cell's `width`. */
  lemma FormattedWidth(v: Cell)
    requires !v.Dec?
    ensures |Formatted(v)| == Width(v)
  {
  }

  lemma {:induction false} SumOfLengths(parts: seq<string>, wid: seq<nat>)
    requires |parts| == |wid|
    requires forall c :: 0 <= c < |parts| ==> |parts[c]| == wid[c]
    ensures TotalLength(parts) == Sum(wid)
  {
    if |parts| > 0 {
      SumOfLengths(parts[1..], wid[1..]);
    }
  }

  /** With a one-character heading string, the divider separator is as long
      as the column separator. */
  lemma DividerSepLength(colSep: string, headSep: string)
    requires |headSep| == 1
    ensures |DividerSep(colSep, headSep)| == |colSep|
  {
    ReplaceCharLength(colSep, ' ', headSep);
    ReplaceCharLength(ReplaceChar(colSep, ' ', headSep), '│', "┼");
    ReplaceCharLength(ReplaceChar(ReplaceChar(colSep, ' ', headSep), '│', "┼"), '|', "+");
  }

  /** The box style's divider separator. */
  lemma BoxDivider()
    ensures DividerSep(" │ ", "─") == "─┼─"
  {
    calc {
      ReplaceChar(" │ ", ' ', "─");
      "─" + ReplaceChar("│ ", ' ', "─");
      "─" + ("│" + ReplaceChar(" ", ' ', "─"));
      "─│─";
    }
    calc {
      ReplaceChar("─│─", '│', "┼");
      "─" + ReplaceChar("│─", '│', "┼");
      "─" + ("┼" + ReplaceChar("─", '│', "┼"));
      "─┼─";
    }
  }

  /** The ASCII style's divider separator. */
  lemma AsciiDivider()
    ensures DividerSep(" | ", "-") == "-+-"
  {
    calc {
      ReplaceChar(" | ", ' ', "-");
      "-" + ReplaceChar("| ", ' ', "-");
      "-" + ("|" + ReplaceChar(" ", ' ', "-"));
      "-|-";
    }
    calc {
      ReplaceChar("-|-", '|', "+");
      "-" + ReplaceChar("|-", '|', "+");
      "-" + ("+" + ReplaceChar("-", '|', "+"));
      "-+-";
    }
  }

  /** "%f" keeps a fraction of up to six digits exactly, padding with zeros. */
  lemma FixedExact(neg: bool, whole: nat, frac: Fraction)
    requires |frac| <= 6
    ensures FixedText(neg, whole, frac) == Sign(neg) + NatStr(whole) + "." + frac + Repeat("0", 6 - |frac|)
  {
  }

  /** Adding one to a string of digits adds one to its value; a carry off
      the front stands for `10 ** |d|`. */
  lemma {:induction false} IncrementValue(d: string)
    requires AllDigits(d)
    ensures DigitsValue(Increment(d).0) + (if Increment(d).1 then Pow10(|d|) else 0) == DigitsValue(d) + 1
    decreases |d|
  {
    if |d| > 0 {
      var front := d[..|d| - 1];
      assert d == front + [d[|d| - 1]];
      DigitsLast(front, d[|d| - 1]);
      if d[|d| - 1] == '9' {
        IncrementValue(front);
        var p := Increment(front).0;
        DigitsLast(p, '0');
      } else {
        DigitsLast(front, (d[|d| - 1] as int + 1) as char);
      }
    }
  }

  lemma DigitsLast(s: string, ch: char)
    requires AllDigits(s) && IsDigit(ch)
    ensures AllDigits(s + [ch])
    ensures DigitsValue(s + [ch]) == DigitsValue(s) * 10 + (ch as int - '0' as int)
  {
    assert (s + [ch])[..|s|] == s;
  }

  /** "%f" rounds to six places: the printed number, counted in millionths,
      is the number cut after six places, plus one when the seventh digit is
      5 or more. */
  lemma FixedRounds(whole: nat, frac: Fraction)
    ensures FixedParts(whole, frac).0 * 1000000 + DigitsValue(FixedParts(whole, frac).1)
      == whole * 1000000 + DigitsValue(SixDigits(frac)) + if RoundsUp(frac) then 1 else 0
  {
    if RoundsUp(frac) {
      IncrementValue(SixDigits(frac));
      assert Pow10(6) == 1000000;
    }
  }

  /** Rows recorded by `writerow` hold no `None`. */
  lemma FilledRowsNoNulls(data: seq<Row>, rows: seq<Row>, noneAs: string)
    requires NoNulls(data)
    ensures NoNulls(data + FilledRows(rows, noneAs))
  {
  }
}
