/** The bookkeeping of a row loop: each input row, numbered from 1, is
    handed to a step that gives the row to write or drops it, and the rows
    that survive are written in input order. */
module Rows {
  import opened Cells

  /** The rows one outcome hands to the writer: none for a dropped row. */
  function Written(out: Option<Row>): (r: seq<Row>)
    ensures |r| == if out.Some? then 1 else 0
    ensures out.Some? ==> r[0] == out.value
  {
    match out
    case None => []
    case Some(row) => [row]
  }

  /** The rows written for `input`, whose rows are numbered from `done + 1`. */
  function Feed(step: (int, Row) -> Option<Row>, done: int, input: seq<Row>): (r: seq<Row>)
    ensures |r| <= |input|
    decreases |input|
  {
    if |input| == 0 then []
    else Written(step(done + 1, input[0])) + Feed(step, done + 1, input[1..])
  }

  /** The first row is written (or dropped) before all the others. */
  lemma FeedCons(step: (int, Row) -> Option<Row>, done: int, input: seq<Row>)
    requires |input| > 0
    ensures Feed(step, done, input) == Written(step(done + 1, input[0])) + Feed(step, done + 1, input[1..])
  {
  }

  /** One turn of a loop over `input` at position `i`: handing over what the
      step makes of row `i + 1` leaves the rows still to come. */
  lemma FeedAdvance(step: (int, Row) -> Option<Row>, i: nat, input: seq<Row>, written: seq<Row>, out: Option<Row>)
    requires i < |input| && out == step(i + 1, input[i])
    ensures written + Feed(step, i, input[i..]) == (written + Written(out)) + Feed(step, i + 1, input[i + 1..])
  {
    var rest := input[i..];
    assert rest[0] == input[i] && rest[1..] == input[i + 1..];
    FeedCons(step, i, rest);
  }

  /** Feeding two stretches of input one after the other writes the rows of
      the first stretch, then those of the second: output order is input order. */
  lemma {:induction false} FeedAppend(step: (int, Row) -> Option<Row>, done: int, a: seq<Row>, b: seq<Row>)
    ensures Feed(step, done, a + b) == Feed(step, done, a) + Feed(step, done + |a|, b)
    decreases |a|
  {
    if |a| == 0 {
      assert a + b == b;
    } else {
      var first := Written(step(done + 1, a[0]));
      assert (a + b)[0] == a[0] && (a + b)[1..] == a[1..] + b;
      FeedCons(step, done, a + b);
      FeedAppend(step, done + 1, a[1..], b);
      FeedCons(step, done, a);
      assert first + (Feed(step, done + 1, a[1..]) + Feed(step, done + |a|, b))
        == (first + Feed(step, done + 1, a[1..])) + Feed(step, done + |a|, b);
    }
  }

  /** One row is written as the step says. */
  lemma FeedOne(step: (int, Row) -> Option<Row>, done: int, row: Row)
    ensures Feed(step, done, [row]) == Written(step(done + 1, row))
  {
    assert [row][1..] == [];
  }

  /** No row is written twice or made up: every written row is the step's
      outcome for some input row. */
  lemma {:induction false} FeedFromInput(step: (int, Row) -> Option<Row>, done: int, input: seq<Row>)
    ensures forall r :: r in Feed(step, done, input) ==>
      exists k :: 0 <= k < |input| && step(done + 1 + k, input[k]) == Some(r)
    decreases |input|
  {
    if |input| > 0 {
      FeedFromInput(step, done + 1, input[1..]);
      forall r | r in Feed(step, done, input)
        ensures exists k :: 0 <= k < |input| && step(done + 1 + k, input[k]) == Some(r)
      {
        if r in Written(step(done + 1, input[0])) {
          assert step(done + 1 + 0, input[0]) == Some(r);
        } else {
          var k :| 0 <= k < |input[1..]| && step(done + 1 + 1 + k, input[1..][k]) == Some(r);
          assert step(done + 1 + (k + 1), input[k + 1]) == Some(r);
        }
      }
    }
  }
}

/** The row loop of csvtool's `main`: the command-line values go out first
    as a row of their own; then every input row is counted, data rows (those
    after the heading rows) are coerced by `numeric` and passed through the
    `--lambda` row function, which may drop them, and every row that is left
    is joined, kept and handed to the writer. */
module Driver {
  import opened Cells
  import opened Rows
  import opened Numeric
  import opened FieldSpec
  import opened Pipeline

  /** The settings the loop reads. `func` is the compiled `--lambda`: it
      gets the data row number and the row, and gives a row or `None`. An
      empty `keep` list is a missing `--keep`. */
  datatype Config = Config(
    headingLines: int,
    joinChar: char,
    joins: seq<Range>,
    keep: seq<Range>,
    func: Option<(int, Row) -> Option<Row>>)

  /** Join, then keep: what lines 555-561 do to every row that survives. */
  function Reshape(cfg: Config, row: Row): Row
  {
    var joined := JoinAll(row, cfg.joinChar, cfg.joins);
    if |cfg.keep| > 0 then KeepCells(joined, cfg.keep) else joined
  }

  /** What becomes of input row number `i` (counting from 1): the row handed
      to the writer, or `None` when the row function drops it. */
  function ProcessRow(cfg: Config, i: int, row: Row): Option<Row>
  {
    if i > cfg.headingLines then
      var coerced := NumericRow(row);
      match cfg.func
      case None => Some(Reshape(cfg, coerced))
      case Some(f) =>
        match f(i - cfg.headingLines, coerced)
        case None => None
        case Some(r) => Some(Reshape(cfg, r))
    else Some(Reshape(cfg, row))
  }

  /** What happens to every row of the input, as one step function. */
  function Step(cfg: Config): (int, Row) -> Option<Row>
  {
    (i, row) => ProcessRow(cfg, i, row)
  }

  /** The command-line values as the first row, when there are any. */
  function ArgsRow(args: seq<string>): (r: seq<Row>)
    ensures |args| > 0 ==> r == [StrRow(args)]
    ensures |args| == 0 ==> r == []
  {
    if |args| > 0 then [StrRow(args)] else []
  }

  /** Lines 555-561: the row joined, then cut down to the kept fields. */
  method ReshapeRow(cfg: Config, input: Row) returns (row: Row)
    ensures row == Reshape(cfg, input)
  {
    row := ApplyJoins(input, cfg.joinChar, cfg.joins);
    if |cfg.keep| > 0 {
      row := ApplyKeep(row, cfg.keep);
    }
  }

  /** Lines 544-561 for one row, numbered `i`: what is handed to the
      writer, or `None` when the row function drops the row. */
  method ProcessOne(cfg: Config, i: int, input: Row) returns (out: Option<Row>)
    ensures out == ProcessRow(cfg, i, input)
  {
    var row := input;
    if i > cfg.headingLines {
      row := NumericRow(row);
      if cfg.func.Some? {
        var result := cfg.func.value(i - cfg.headingLines, row);
        if result.None? {
          return None;
        }
        row := result.value;
      }
    }
    row := ReshapeRow(cfg, row);
    return Some(row);
  }

  /** Lines 538-562: every row handed to `writer.writerow`, in order. */
  method RunRows(cfg: Config, args: seq<string>, input: seq<Row>) returns (written: seq<Row>)
    ensures written == ArgsRow(args) + Feed(Step(cfg), 0, input)
  {
    written := [];
    if |args| > 0 {
      written := written + [StrRow(args)];
    }
    var i := 0;
    while i < |input|
      invariant 0 <= i <= |input|
      invariant written + Feed(Step(cfg), i, input[i..]) == ArgsRow(args) + Feed(Step(cfg), 0, input)
    {
      var out := ProcessOne(cfg, i + 1, input[i]);
      assert Step(cfg)(i + 1, input[i]) == out;
      FeedAdvance(Step(cfg), i, input, written, out);
      ghost var before := written;
      if out.Some? {
        written := written + [out.value];
      }
      assert written == before + Written(out);
      i := i + 1;
    }
  }

  // ---------------------------------------------------------------------
  // Properties

  /** The command-line values come out first and unchanged: no numeric
      coercion, row function, join or keep touches them. */
  lemma ArgsFirst(cfg: Config, args: seq<string>, input: seq<Row>)
    requires |args| > 0
    ensures (ArgsRow(args) + Feed(Step(cfg), 0, input))[0] == StrRow(args)
  {
  }

  /** Heading rows skip `numeric` and the row function, but are still
      joined and kept. */
  lemma HeadingRowRaw(cfg: Config, i: int, row: Row)
    requires i <= cfg.headingLines
    ensures ProcessRow(cfg, i, row) == Some(Reshape(cfg, row))
  {
  }

  /** Data rows are coerced by `numeric` before anything else. */
  lemma DataRowCoerced(cfg: Config, i: int, row: Row)
    requires i > cfg.headingLines && cfg.func.None?
    ensures ProcessRow(cfg, i, row) == Some(Reshape(cfg, NumericRow(row)))
  {
  }

  /** The row function sees the coerced row and its data row number, which
      starts at 1 for the first row after the headings; `None` drops the row. */
  lemma RowFunctionNumbering(cfg: Config, i: int, row: Row)
    requires i > cfg.headingLines && cfg.func.Some?
    ensures i - cfg.headingLines >= 1
    ensures cfg.func.value(i - cfg.headingLines, NumericRow(row)).None? ==> ProcessRow(cfg, i, row) == None
    ensures cfg.func.value(i - cfg.headingLines, NumericRow(row)).Some? ==>
      ProcessRow(cfg, i, row) == Some(Reshape(cfg, cfg.func.value(i - cfg.headingLines, NumericRow(row)).value))
  {
  }

  /** With no join, keep or row function, a heading row is written as read
      and a data row coerced. */
  lemma PlainRow(cfg: Config, i: int, row: Row)
    requires cfg.joins == [] && cfg.keep == [] && cfg.func.None?
    ensures Step(cfg)(i, row) == Some(if i <= cfg.headingLines then row else NumericRow(row))
  {
  }

  /** With no join, keep or row function, heading rows are written as read
      and data rows coerced, one output row per input row. */
  lemma {:induction false} PlainRun(cfg: Config, done: nat, input: seq<Row>)
    requires cfg.joins == [] && cfg.keep == [] && cfg.func.None?
    ensures |Feed(Step(cfg), done, input)| == |input|
    ensures forall k :: 0 <= k < |input| ==>
      Feed(Step(cfg), done, input)[k] == if done + k + 1 <= cfg.headingLines then input[k] else NumericRow(input[k])
    decreases |input|
  {
    if |input| > 0 {
      PlainRun(cfg, done + 1, input[1..]);
      FeedCons(Step(cfg), done, input);
      PlainRow(cfg, done + 1, input[0]);
      var rest := Feed(Step(cfg), done + 1, input[1..]);
      forall k | 0 <= k < |input|
        ensures Feed(Step(cfg), done, input)[k] == if done + k + 1 <= cfg.headingLines then input[k] else NumericRow(input[k])
      {
        if k > 0 {
          assert Feed(Step(cfg), done, input)[k] == rest[k - 1];
          assert input[1..][k - 1] == input[k];
        }
      }
    }
  }
}
