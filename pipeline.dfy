/** The two field transformations of csvtool's row loop: `--join`, which
    replaces each range of fields by one field holding the range's non-empty
    values joined by a separator character, and `--keep`, which builds the
    output row from the given ranges in the given order. */
module Pipeline {
  import opened Text
  import opened Cells
  import opened FieldSpec

  // ---------------------------------------------------------------------
  // Joining one range

  /** `[x for x in cells if x]`: the truthy cells, in order. */
  function TruthyCells(cells: Row): (r: Row)
    ensures |r| <= |cells|
    ensures forall k :: 0 <= k < |r| ==> Truthy(r[k])
    ensures forall x :: x in r <==> x in cells && Truthy(x)
  {
    if |cells| == 0 then []
    else if Truthy(cells[0]) then [cells[0]] + TruthyCells(cells[1..])
    else TruthyCells(cells[1..])
  }

  /** The first cell of a list that is not a string, if any. */
  function FirstNonString(t: Row): (r: Option<Cell>)
    ensures r.None? <==> forall k :: 0 <= k < |t| ==> t[k].Str?
    ensures r.Some? ==> r.value in t && !r.value.Str?
  {
    if |t| == 0 then None
    else if !t[0].Str? then Some(t[0])
    else FirstNonString(t[1..])
  }

  /** The joined field, as written: `joinchar.join(...)` of the truthy cells,
      which raises `TypeError` at the first truthy cell that is not a
      string (a number made by `numeric`). */
  function JoinFieldAsWritten(c: char, cells: Row): (r: Result<Cell, Cell>)
    ensures r.Err? ==> Truthy(r.error) && !r.error.Str? && r.error in cells
    ensures r.Ok? <==> forall x :: x in cells && Truthy(x) ==> x.Str?
  {
    var t := TruthyCells(cells);
    match FirstNonString(t)
    case None => Ok(Str(Join([c], Texts(t))))
    case Some(x) => Err(x)
  }

  /** The joined field: the texts of the truthy cells separated by `c`. */
  function JoinField(c: char, cells: Row): (r: Cell)
    ensures r.Str?
    ensures |TruthyCells(cells)| == 0 ==> r == Str("")
  {
    Str(Join([c], Texts(TruthyCells(cells))))
  }

  /** `row[n:m] = [joinchar.join(x for x in row[n:m] if x)]`. */
  function JoinRange(row: Row, c: char, rg: Range): (r: Row)
    ensures var (lo, hi) := Bounds(|row|, rg);
      |r| == |row| - (hi - lo) + 1 && r[..lo] == row[..lo]
      && r[lo] == JoinField(c, row[lo..hi]) && r[lo + 1..] == row[hi..]
  {
    var (lo, hi) := Bounds(|row|, rg);
    var r := SliceAssign(row, rg, [JoinField(c, Slice(row, rg))]);
    assert r[lo..lo + 1] == [r[lo]];
    r
  }

  /** The joins of `--join`, in the order given (the order the ranges are
      stored in, which is the reverse of the FIELDSPEC's). */
  function JoinAll(row: Row, c: char, ranges: seq<Range>): Row
    decreases |ranges|
  {
    if |ranges| == 0 then row else JoinAll(JoinRange(row, c, ranges[0]), c, ranges[1..])
  }

  /** Lines 555-556: each range in turn, the row reassigned in place. */
  method ApplyJoins(row: Row, c: char, ranges: seq<Range>) returns (r: Row)
    ensures r == JoinAll(row, c, ranges)
  {
    r := row;
    var i := 0;
    while i < |ranges|
      invariant 0 <= i <= |ranges|
      invariant JoinAll(r, c, ranges[i..]) == JoinAll(row, c, ranges)
    {
      assert ranges[i..][1..] == ranges[i + 1..];
      r := JoinRange(r, c, ranges[i]);
      i := i + 1;
    }
  }

  // ---------------------------------------------------------------------
  // Keep

  /** `--keep`: the concatenation of `row[n:m]` over the ranges, in order. */
  function KeepCells(row: Row, ranges: seq<Range>): (r: Row)
    ensures forall x :: x in r ==> x in row
  {
    if |ranges| == 0 then [] else Slice(row, ranges[0]) + KeepCells(row, ranges[1..])
  }

  /** Lines 557-561: a fresh list extended by one slice per range. */
  method ApplyKeep(row: Row, ranges: seq<Range>) returns (r: Row)
    ensures r == KeepCells(row, ranges)
  {
    r := [];
    var i := 0;
    while i < |ranges|
      invariant 0 <= i <= |ranges|
      invariant r == KeepCells(row, ranges[..i])
    {
      KeepAppend(row, ranges[..i], [ranges[i]]);
      assert ranges[..i + 1] == ranges[..i] + [ranges[i]];
      r := r + Slice(row, ranges[i]);
      i := i + 1;
    }
    assert ranges[..i] == ranges;
  }

  // ---------------------------------------------------------------------
  // Properties of join

  /** The joined field is the non-empty texts with the separator between
      them: when the separator occurs in none of them, splitting on it gives
      them back. */
  lemma JoinFieldSplits(c: char, cells: Row)
    requires |TruthyCells(cells)| >= 1
    requires forall x :: x in cells && Truthy(x) ==> c !in PyStr(x)
    ensures Split(JoinField(c, cells).s, c) == Texts(TruthyCells(cells))
  {
    var t := TruthyCells(cells);
    forall k | 0 <= k < |t|
      ensures c !in Texts(t)[k]
    {
      assert t[k] in t;
    }
    SplitJoin(Texts(t), c);
  }

  /** The joined field is as long as the texts it joins plus one separator
      between each two. */
  lemma JoinFieldLength(c: char, cells: Row)
    requires |TruthyCells(cells)| >= 1
    ensures |JoinField(c, cells).s| == TotalLength(Texts(TruthyCells(cells))) + |TruthyCells(cells)| - 1
  {
    var t := Texts(TruthyCells(cells));
    JoinLength([c], t);
    assert |[c]| * (|t| - 1) == |t| - 1;
  }

  /** On string cells the code as written and the joined field agree. */
  lemma JoinFieldAgrees(c: char, cells: Row)
    requires forall k :: 0 <= k < |cells| ==> cells[k].Str?
    ensures JoinFieldAsWritten(c, cells) == Ok(JoinField(c, cells))
  {
    var t := TruthyCells(cells);
    forall k | 0 <= k < |t|
      ensures t[k].Str?
    {
      assert t[k] in cells;
    }
  }

  /** Joining two numbers raises `TypeError` as written: `" ".join([1, 2])`. */
  lemma JoinNumbersRaises()
    ensures JoinFieldAsWritten(' ', [Int(1), Int(2)]) == Err(Int(1))
    ensures JoinField(' ', [Int(1), Int(2)]) == Str("1 2")
  {
    var cells := [Int(1), Int(2)];
    assert TruthyCells(cells) == cells by {
      assert TruthyCells(cells[1..]) == [Int(2)] by {
        assert cells[1..][1..] == [];
      }
    }
    assert FirstNonString(cells) == Some(Int(1));
    assert Texts(cells) == ["1", "2"] by {
      assert IntStr(1) == "1";
      assert IntStr(2) == "2";
    }
  }

  /** A range that starts past the end of the row appends one empty field. */
  lemma JoinPastEnd(row: Row, c: char, n: int, m: Option<int>)
    requires n >= |row|
    ensures JoinRange(row, c, Range(n, m)) == row + [Str("")]
  {
    SlicePastEnd(row, n, m);
    assert TruthyCells([]) == [];
  }

  /** Empty strings, `None` and the integer 0 are left out of the join. */
  lemma JoinSkipsFalsy(c: char, a: Row, x: Cell, b: Row)
    requires !Truthy(x)
    ensures JoinField(c, a + [x] + b) == JoinField(c, a + b)
  {
    TruthyConcat(a, [x] + b);
    TruthyConcat(a, b);
    assert a + [x] + b == a + ([x] + b);
    assert ([x] + b)[1..] == b;
  }

  lemma {:induction false} TruthyConcat(a: Row, b: Row)
    ensures TruthyCells(a + b) == TruthyCells(a) + TruthyCells(b)
  {
    if |a| > 0 {
      assert (a + b)[1..] == a[1..] + b;
      TruthyConcat(a[1..], b);
    } else {
      assert a + b == b;
    }
  }

  /** Joining a range that lies inside the row. */
  lemma JoinInside(row: Row, c: char, n: nat, m: nat)
    requires n <= m <= |row|
    ensures JoinRange(row, c, Range(n, Some(m))) == row[..n] + [JoinField(c, row[n..m])] + row[m..]
  {
    var r := JoinRange(row, c, Range(n, Some(m)));
    assert Bounds(|row|, Range(n, Some(m))) == (n, m);
    assert r == r[..n] + [r[n]] + r[n + 1..];
  }

  lemma JoinAllTwo(row: Row, c: char, a: Range, b: Range)
    ensures JoinAll(row, c, [a, b]) == JoinRange(JoinRange(row, c, a), c, b)
  {
    var r1 := JoinRange(row, c, a);
    assert [a, b][1..] == [b] && [b][1..] == [];
    assert JoinAll(row, c, [a, b]) == JoinAll(r1, c, [b]);
    assert JoinAll(r1, c, [b]) == JoinAll(JoinRange(r1, c, b), c, []);
  }

  lemma SplitAround<T>(row: seq<T>, j: T, n1: nat, m1: nat, n2: nat, m2: nat)
    requires n1 <= m1 <= n2 <= m2 <= |row|
    ensures var r1 := row[..n2] + [j] + row[m2..];
      r1[..n1] == row[..n1] && r1[n1..m1] == row[n1..m1] && r1[m1..] == row[m1..n2] + [j] + row[m2..]
  {
  }

  /** Joining ranges right to left: with two ranges in ascending order that
      do not overlap, joining the later one first leaves the earlier one's
      positions where they were, so both join the fields they name. */
  lemma JoinTwoRightToLeft(row: Row, c: char, n1: nat, m1: nat, n2: nat, m2: nat)
    requires n1 <= m1 <= n2 <= m2 <= |row|
    ensures JoinAll(row, c, [Range(n2, Some(m2)), Range(n1, Some(m1))])
      == row[..n1] + [JoinField(c, row[n1..m1])] + row[m1..n2] + [JoinField(c, row[n2..m2])] + row[m2..]
  {
    var j1 := JoinField(c, row[n1..m1]);
    var j2 := JoinField(c, row[n2..m2]);
    var r1 := row[..n2] + [j2] + row[m2..];
    JoinAllTwo(row, c, Range(n2, Some(m2)), Range(n1, Some(m1)));
    JoinInside(row, c, n2, m2);
    SplitAround(row, j2, n1, m1, n2, m2);
    JoinInside(r1, c, n1, m1);
    assert JoinField(c, r1[n1..m1]) == j1;
    var lhs := JoinAll(row, c, [Range(n2, Some(m2)), Range(n1, Some(m1))]);
    assert lhs == r1[..n1] + [j1] + r1[m1..];
    assert r1[..n1] + [j1] + r1[m1..] == row[..n1] + [j1] + (row[m1..n2] + [j2] + row[m2..]);
    SeqAssoc(row[..n1] + [j1], row[m1..n2], [j2], row[m2..]);
  }

  /** Ranges in the order they are applied, each ending at or before the
      start of the one applied before it (the last one first), all within a
      row of length `len`. */
  predicate Descending(ds: seq<Range>, len: int)
    decreases |ds|
  {
    |ds| == 0
    || (0 <= ds[0].n && ds[0].m.Some? && ds[0].n <= ds[0].m.value <= len && Descending(ds[1..], ds[0].n))
  }

  /** The reference for such ranges: each one joins the fields it names in
      the original row. */
  function JoinOriginal(row: Row, c: char, ds: seq<Range>): (r: Row)
    requires Descending(ds, |row|)
    decreases |ds|
  {
    if |ds| == 0 then row
    else
      var n, m := ds[0].n, ds[0].m.value;
      JoinOriginal(row[..n], c, ds[1..]) + [JoinField(c, row[n..m])] + row[m..]
  }

  /** Replacing `p[n..m]` by `x` in `p + s` is replacing it in `p`, then appending `s`. */
  lemma SpliceAppend<T>(p: seq<T>, s: seq<T>, n: nat, m: nat, x: T)
    requires n <= m <= |p|
    ensures (p + s)[..n] + [x] + (p + s)[m..] == (p[..n] + [x] + p[m..]) + s
  {
    assert (p + s)[..n] == p[..n] && (p + s)[m..] == p[m..] + s;
  }

  /** A range that lies in `p` joins `p + s` as it joins `p`, and leaves `s` alone. */
  lemma JoinRangePrefix(p: Row, s: Row, c: char, n: nat, m: nat)
    requires n <= m <= |p|
    ensures JoinRange(p + s, c, Range(n, Some(m))) == JoinRange(p, c, Range(n, Some(m))) + s
  {
    JoinInside(p + s, c, n, m);
    JoinInside(p, c, n, m);
    assert (p + s)[n..m] == p[n..m];
    SpliceAppend(p, s, n, m, JoinField(c, p[n..m]));
  }

  /** Ranges that lie in `p` join `p + s` as they join `p`, and leave `s` alone. */
  lemma {:induction false} JoinAllPrefix(p: Row, s: Row, c: char, ds: seq<Range>)
    requires Descending(ds, |p|)
    ensures JoinAll(p + s, c, ds) == JoinAll(p, c, ds) + s
    decreases |ds|
  {
    if |ds| > 0 {
      var n, m := ds[0].n, ds[0].m.value;
      JoinRangePrefix(p, s, c, n, m);
      var p' := JoinRange(p, c, ds[0]);
      assert |p'| >= n by {
        JoinInside(p, c, n, m);
      }
      JoinAllPrefix(p', s, c, ds[1..]);
    }
  }

  /** Joining right to left, for any number of ranges: applied last first,
      ranges that do not overlap each join the fields they name in the
      original row. */
  lemma {:induction false} JoinRightToLeft(row: Row, c: char, ds: seq<Range>)
    requires Descending(ds, |row|)
    ensures JoinAll(row, c, ds) == JoinOriginal(row, c, ds)
    decreases |ds|
  {
    if |ds| > 0 {
      var n, m := ds[0].n, ds[0].m.value;
      JoinInside(row, c, n, m);
      var rest := [JoinField(c, row[n..m])] + row[m..];
      assert JoinRange(row, c, ds[0]) == row[..n] + rest;
      JoinAllPrefix(row[..n], rest, c, ds[1..]);
      JoinRightToLeft(row[..n], c, ds[1..]);
    }
  }

  lemma SeqAssoc<T>(a: seq<T>, b: seq<T>, c: seq<T>, d: seq<T>)
    ensures a + (b + c + d) == a + b + c + d
  {
  }

  // ---------------------------------------------------------------------
  // Properties of keep

  /** Keeping by a list of ranges followed by more ranges is keeping by the
      first list, then by the second: the output follows the spec's order. */
  lemma {:induction false} KeepAppend(row: Row, a: seq<Range>, b: seq<Range>)
    ensures KeepCells(row, a + b) == KeepCells(row, a) + KeepCells(row, b)
  {
    if |a| > 0 {
      assert (a + b)[1..] == a[1..] + b;
      KeepAppend(row, a[1..], b);
    } else {
      assert a + b == b;
    }
  }

  /** Ranges that start at or past the end of the row contribute nothing. */
  lemma {:induction false} KeepPastEnd(row: Row, ranges: seq<Range>)
    requires forall k :: 0 <= k < |ranges| ==> ranges[k].n >= |row|
    ensures KeepCells(row, ranges) == []
  {
    if |ranges| > 0 {
      SlicePastEnd(row, ranges[0].n, ranges[0].m);
      KeepPastEnd(row, ranges[1..]);
    }
  }

  /** "1-" keeps the whole row. */
  lemma KeepWholeRow(row: Row)
    ensures KeepCells(row, [Range(0, None)]) == row
  {
    assert Slice(row, Range(0, None)) == row;
  }

  /** A range may be repeated: its fields then appear twice. */
  lemma KeepRepeat(row: Row, rg: Range)
    ensures KeepCells(row, [rg, rg]) == Slice(row, rg) + Slice(row, rg)
  {
    assert [rg, rg][1..] == [rg];
    assert KeepCells(row, [rg]) == Slice(row, rg) + KeepCells(row, []);
  }
}
