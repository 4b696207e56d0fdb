/** The end of csvtool's `main` (lines 516-566): the writer `--outfmt`
    chooses is made, every row the loop keeps is handed to it, and the table
    writers, which only collect rows, are then asked to write them all out. */
module Output {
  import opened Cells
  import opened FieldSpec
  import opened Pipeline
  import opened Rows
  import opened Driver
  import opened Options
  import opened Shell
  import opened Tables

  /** Lines 414-424 and 538-561: the settings the row loop reads, taken
      from the cooked options. Without `--join` nothing is joined, and the
      separator is then never read. */
  function ConfigOf(headingLines: int, s: Settings, func: Option<(int, Row) -> Option<Row>>): (cfg: Config)
  {
    match s.join
    case None => Config(headingLines, ' ', [], s.keep, func)
    case Some(j) => Config(headingLines, j.sep, j.ranges, s.keep, func)
  }

  /** The loop joins with the separator and the ranges of `--join`, last
      range first, and keeps the ranges of `--keep` in the order given. */
  lemma CookedConfig(join: string, keep: string, outfmt: string, headingLines: int, func: Option<(int, Row) -> Option<Row>>)
    requires Cook(join, keep, outfmt).Ok?
    ensures var cfg := ConfigOf(headingLines, Cook(join, keep, outfmt).value, func);
      && cfg.headingLines == headingLines && cfg.func == func
      && (join == "" ==> cfg.joins == [])
      && (join != "" ==> cfg.joinChar == join[0] && cfg.joins == Reversed(ParseRange(join[1..]).value))
      && (keep == "" ==> cfg.keep == [])
      && (keep != "" ==> cfg.keep == ParseRange(keep).value)
  {
    if join != "" {
      CookJoinReverses(join);
    }
  }

  /** With `--join` naming ranges in ascending order that do not overlap,
      however many, each joins the fields it names in the input row. */
  lemma CookedJoins(join: string, keep: string, outfmt: string, headingLines: int,
                    func: Option<(int, Row) -> Option<Row>>, row: Row)
    requires Cook(join, keep, outfmt).Ok? && join != ""
    requires Descending(Reversed(ParseRange(join[1..]).value), |row|)
    ensures var cfg := ConfigOf(headingLines, Cook(join, keep, outfmt).value, func);
      JoinAll(row, cfg.joinChar, cfg.joins) == JoinOriginal(row, join[0], Reversed(ParseRange(join[1..]).value))
  {
    CookedConfig(join, keep, outfmt, headingLines, func);
    JoinRightToLeft(row, join[0], Reversed(ParseRange(join[1..]).value));
  }

  /** Lines 519-520 and 538-562, `--outfmt shell`: a fresh writer with the
      default `none_as` gets every row in turn; the first one it sees (the
      command-line values, when there are any) names the variables. */
  method RunShell(headingLines: int, s: Settings, func: Option<(int, Row) -> Option<Row>>,
                  args: seq<string>, input: seq<Row>, shellify: Cell -> string) returns (w: ShellWriter)
    requires s.outfmt.Shell?
    ensures fresh(w) && w.noneAs == "" && w.shellify == shellify
    ensures var rows := ArgsRow(args) + Rows.Feed(Step(ConfigOf(headingLines, s, func)), 0, input);
      && w.vars == Shell.Feed([], rows, "", shellify).0
      && w.out == Shell.Feed([], rows, "", shellify).1
  {
    w := new ShellWriter("", shellify);
    var rows := RunRows(ConfigOf(headingLines, s, func), args, input);
    w.WriteRows(rows);
  }

  /** Lines 562-566 for a table writer that has collected nothing yet:
      `rows` are collected one by one, `None` values filled in, and the
      whole table written at the end. A fixed-width table stops at the first
      row longer than the first row. */
  method CollectAndFlush(rows: seq<Row>, w: TableWriter) returns (ok: bool)
    requires w.data == []
    modifies w
    ensures var d := FilledRows(rows, w.noneAs);
      && (d == [] ==> ok && w.data == [] && w.out == old(w.out))
      && (d != [] && w.markdown ==> ok && w.data == [] && w.out == old(w.out) + w.MarkdownTable(d, |d|))
      && (d != [] && !w.markdown && !Wide(d) ==> !ok && w.data == d && w.out == old(w.out))
      && (d != [] && !w.markdown && Wide(d) ==>
            var b := FirstLong(d, |d[0]|);
            ok == (b == |d|)
            && w.out == old(w.out) + w.FixedTable(d, Widths(d), b)
            && w.data == if ok then [] else d)
  {
    ok := w.WriteRows(Some(rows));
    assert w.data == FilledRows(rows, w.noneAs);
    ok := w.WriteRows(None);
  }

  /** Lines 521-524 and 538-566, `--outfmt markdown` and `--outfmt table...`:
      a fresh writer (Markdown, or fixed-width in the chosen style) with the
      default `none_as` and, as heading count, the one the loop uses to keep
      heading rows raw, fed by the loop and then flushed. */
  method RunTable(headingLines: int, s: Settings, func: Option<(int, Row) -> Option<Row>>,
                  args: seq<string>, input: seq<Row>) returns (w: TableWriter, ok: bool)
    requires s.outfmt.Markdown? || s.outfmt.Table?
    ensures fresh(w) && w.noneAs == ""
    ensures w.markdown == s.outfmt.Markdown? && w.style == (if s.outfmt.Table? then s.outfmt.style else Box)
    ensures w.headingLines == headingLines
    ensures var d := FilledRows(ArgsRow(args) + Rows.Feed(Step(ConfigOf(headingLines, s, func)), 0, input), "");
      && (d == [] ==> ok && w.data == [] && w.out == [])
      && (d != [] && s.outfmt.Markdown? ==> ok && w.data == [] && w.out == w.MarkdownTable(d, |d|))
      && (d != [] && s.outfmt.Table? && !Wide(d) ==> !ok && w.data == d && w.out == [])
      && (d != [] && s.outfmt.Table? && Wide(d) ==>
            var b := FirstLong(d, |d[0]|);
            ok == (b == |d|)
            && w.out == w.FixedTable(d, Widths(d), b)
            && w.data == if ok then [] else d)
  {
    if s.outfmt.Markdown? {
      w := new TableWriter("", Box, true, headingLines);
    } else {
      w := new TableWriter("", s.outfmt.style, false, headingLines);
    }
    var rows := RunRows(ConfigOf(headingLines, s, func), args, input);
    ok := CollectAndFlush(rows, w);
  }
}
