/** csvtool's `ShellWriter`: the first row it is given names the shell
    variables, and every later row is written as one line of `name=value`
    assignments separated by semicolons. How a value is quoted for the shell
    (`shellify`) belongs to another module and is a parameter here. */
module Shell {
  import opened Text
  import opened Cells

  /** A variable name as written: every space becomes an underscore. */
  function VarName(name: string): (r: string)
    ensures |r| == |name|
    ensures forall k :: 0 <= k < |name| ==> r[k] == if name[k] == ' ' then '_' else name[k]
    ensures ' ' !in r
    ensures '=' !in name ==> '=' !in r
  {
    ReplaceCharAt(name, ' ', "_");
    if '=' in ReplaceChar(name, ' ', "_") then
      ReplaceCharFrom(name, ' ', "_", '=');
      ReplaceChar(name, ' ', "_")
    else ReplaceChar(name, ' ', "_")
  }

  /** `"%s=%s" % (var.replace(" ", "_"), shellify(val))`. */
  function Assignment(name: string, quoted: string): string
  {
    VarName(name) + "=" + quoted
  }

  /** The assignments of one line: `zip` pairs names and values up to the
      shorter of the two lists. */
  function Assignments(vars: seq<string>, row: Row, shellify: Cell -> string): (r: seq<string>)
    ensures |r| == if |vars| < |row| then |vars| else |row|
    ensures forall k :: 0 <= k < |r| ==> r[k] == Assignment(vars[k], shellify(row[k]))
  {
    var n := if |vars| < |row| then |vars| else |row|;
    seq(n, k requires 0 <= k < n => Assignment(vars[k], shellify(row[k])))
  }

  /** The line written for a data row. */
  function ShellLine(vars: seq<string>, row: Row, noneAs: string, shellify: Cell -> string): string
  {
    Join(";", Assignments(vars, FillNulls(row, noneAs), shellify))
  }

  /** The lines written for `rows`, starting with the names `vars` (`[]`
      until a heading row has been seen), and the names afterwards. A row
      that arrives while there are no names becomes the names. */
  function Feed(vars: seq<string>, rows: seq<Row>, noneAs: string, shellify: Cell -> string): (r: (seq<string>, seq<string>))
    ensures |r.1| <= |rows|
    decreases |rows|
  {
    if |rows| == 0 then (vars, [])
    else if |vars| == 0 then Feed(Texts(rows[0]), rows[1..], noneAs, shellify)
    else
      var (v, lines) := Feed(vars, rows[1..], noneAs, shellify);
      (v, [ShellLine(vars, rows[0], noneAs, shellify)] + lines)
  }

  /** One turn of `writerows`: if `writerow` on row `i` takes the names and
      lines from (`v`, `o`) to (`v'`, `o'`), the lines still to come from
      row `i + 1` on complete the same output. */
  lemma FeedStep(v: seq<string>, o: seq<string>, v': seq<string>, o': seq<string>,
                 rows: seq<Row>, i: nat, noneAs: string, shellify: Cell -> string)
    requires i < |rows|
    requires v == [] ==> v' == Texts(rows[i]) && o' == o
    requires v != [] ==> v' == v && o' == o + [ShellLine(v, rows[i], noneAs, shellify)]
    ensures Feed(v', rows[i + 1..], noneAs, shellify).0 == Feed(v, rows[i..], noneAs, shellify).0
    ensures o' + Feed(v', rows[i + 1..], noneAs, shellify).1 == o + Feed(v, rows[i..], noneAs, shellify).1
  {
    assert rows[i..][0] == rows[i] && rows[i..][1..] == rows[i + 1..];
    if v != [] {
      var tail := Feed(v, rows[i + 1..], noneAs, shellify).1;
      assert o' + tail == o + ([ShellLine(v, rows[i], noneAs, shellify)] + tail);
    }
  }

  class ShellWriter {
    const noneAs: string
    const shellify: Cell -> string
    /** The variable names; empty (Python's `None` or `[]`) until set. */
    var vars: seq<string>
    /** The lines written so far. */
    var out: seq<string>

    constructor(noneAs: string, shellify: Cell -> string)
      ensures this.noneAs == noneAs && this.shellify == shellify
      ensures vars == [] && out == []
    {
      this.noneAs := noneAs;
      this.shellify := shellify;
      vars := [];
      out := [];
    }

    /** `writerow`: the first row (or any row while there are no names)
        sets the names and writes nothing; any other row writes one line. */
    method WriteRow(row: Row)
      modifies this
      ensures old(vars) == [] ==> vars == Texts(row) && out == old(out)
      ensures old(vars) != [] ==> vars == old(vars) && out == old(out) + [ShellLine(vars, row, noneAs, shellify)]
    {
      if |vars| == 0 {
        vars := Texts(row);
      } else {
        var r: Row := [];
        var i := 0;
        while i < |row|
          invariant 0 <= i <= |row|
          invariant r == FillNulls(row[..i], noneAs)
        {
          var val := row[i];
          if val.Null? {
            val := Str(noneAs);
          }
          r := r + [val];
          i := i + 1;
        }
        assert row[..i] == row;
        out := out + [Join(";", Assignments(vars, r, shellify))];
      }
    }

    /** `writerows`: `writerow` on each row in turn. */
    method WriteRows(rows: seq<Row>)
      modifies this
      ensures vars == Feed(old(vars), rows, noneAs, shellify).0
      ensures out == old(out) + Feed(old(vars), rows, noneAs, shellify).1
    {
      ghost var names := Feed(vars, rows, noneAs, shellify).0;
      ghost var lines := old(out) + Feed(vars, rows, noneAs, shellify).1;
      var i := 0;
      while i < |rows|
        invariant 0 <= i <= |rows|
        invariant Feed(vars, rows[i..], noneAs, shellify).0 == names
        invariant out + Feed(vars, rows[i..], noneAs, shellify).1 == lines
      {
        ghost var v, o := vars, out;
        WriteRow(rows[i]);
        FeedStep(v, o, vars, out, rows, i, noneAs, shellify);
        i := i + 1;
      }
      assert rows[i..] == [];
    }
  }

  // ---------------------------------------------------------------------
  // Properties

  /** Once the names are set, every row writes exactly one line and the
      names never change. */
  lemma {:induction false} OneLinePerRow(vars: seq<string>, rows: seq<Row>, noneAs: string, shellify: Cell -> string)
    requires vars != []
    ensures Feed(vars, rows, noneAs, shellify).0 == vars
    ensures |Feed(vars, rows, noneAs, shellify).1| == |rows|
    ensures forall k :: 0 <= k < |rows| ==>
      Feed(vars, rows, noneAs, shellify).1[k] == ShellLine(vars, rows[k], noneAs, shellify)
    decreases |rows|
  {
    if |rows| > 0 {
      OneLinePerRow(vars, rows[1..], noneAs, shellify);
      var lines := Feed(vars, rows, noneAs, shellify).1;
      forall k | 0 < k < |rows|
        ensures lines[k] == ShellLine(vars, rows[k], noneAs, shellify)
      {
        assert rows[1..][k - 1] == rows[k];
      }
    }
  }

  /** A fresh writer takes its names from the first row, in their string
      form, and writes one line for each row after it. */
  lemma HeadingThenLines(rows: seq<Row>, noneAs: string, shellify: Cell -> string)
    requires |rows| > 0 && |rows[0]| > 0
    ensures Feed([], rows, noneAs, shellify).0 == Texts(rows[0])
    ensures |Feed([], rows, noneAs, shellify).1| == |rows| - 1
    ensures forall k :: 1 <= k < |rows| ==>
      Feed([], rows, noneAs, shellify).1[k - 1] == ShellLine(Texts(rows[0]), rows[k], noneAs, shellify)
  {
    OneLinePerRow(Texts(rows[0]), rows[1..], noneAs, shellify);
    forall k | 1 <= k < |rows|
      ensures Feed([], rows, noneAs, shellify).1[k - 1] == ShellLine(Texts(rows[0]), rows[k], noneAs, shellify)
    {
      assert rows[1..][k - 1] == rows[k];
    }
  }

  /** An empty heading row sets no names, so the next row is taken as the
      headings again. */
  lemma EmptyHeadingRetried(rows: seq<Row>, noneAs: string, shellify: Cell -> string)
    requires |rows| > 0 && rows[0] == []
    ensures Feed([], rows, noneAs, shellify) == Feed([], rows[1..], noneAs, shellify)
  {
    assert Texts(rows[0]) == [];
  }

  /** A line holds one assignment per name that has a value; when neither a
      name nor a quoted value holds ';', splitting the line at ';' gives the
      assignments back, and each starts with its name (no spaces) and '='. */
  lemma LineSplits(vars: seq<string>, row: Row, noneAs: string, shellify: Cell -> string)
    requires |vars| > 0 && |row| > 0
    requires forall k :: 0 <= k < |vars| ==> ';' !in vars[k]
    requires forall c :: ';' !in shellify(c)
    ensures var parts := Assignments(vars, FillNulls(row, noneAs), shellify);
      Split(ShellLine(vars, row, noneAs, shellify), ';') == parts
      && |parts| == (if |vars| < |row| then |vars| else |row|)
      && forall k :: 0 <= k < |parts| ==> parts[k][..|vars[k]| + 1] == VarName(vars[k]) + "="
  {
    var filled := FillNulls(row, noneAs);
    var parts := Assignments(vars, filled, shellify);
    forall k | 0 <= k < |parts|
      ensures ';' !in parts[k]
    {
      var q := shellify(filled[k]);
      assert ';' !in VarName(vars[k]) by {
        if ';' in VarName(vars[k]) {
          ReplaceCharFrom(vars[k], ' ', "_", ';');
        }
      }
      assert parts[k] == VarName(vars[k]) + "=" + q;
    }
    SplitJoin(parts, ';');
    forall k | 0 <= k < |parts|
      ensures parts[k][..|vars[k]| + 1] == VarName(vars[k]) + "="
    {
      assert parts[k] == (VarName(vars[k]) + "=") + shellify(filled[k]);
    }
  }

  /** A name without '=' is read back from its assignment by splitting at '='. */
  lemma NameReadBack(name: string, quoted: string)
    requires '=' !in name
    ensures Split(Assignment(name, quoted), '=')[0] == VarName(name)
  {
    SplitAfterPiece(VarName(name), quoted, '=');
  }

  /** A `None` value is written as `none_as`, passed through `shellify`. */
  lemma NullWrittenAsNoneAs(vars: seq<string>, row: Row, noneAs: string, shellify: Cell -> string, k: nat)
    requires k < |vars| && k < |row| && row[k].Null?
    ensures Assignments(vars, FillNulls(row, noneAs), shellify)[k] == Assignment(vars[k], shellify(Str(noneAs)))
  {
  }
}
