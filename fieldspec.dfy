/** FIELDSPECs and Python slices. A FIELDSPEC such as "1,3-4,6-" names
    fields by 1-based, inclusive ranges; csvtool's `parse_range` turns it into
    0-based slice bounds `(n, m)`, with `m` absent for "to the end", and the
    row pipeline applies those bounds with Python's slicing rules. */
module FieldSpec {
  import opened Text
  import opened Cells
  import opened Numeric

  /** The slice `[n:m]`; `m == None` is `[n:]`. */
  datatype Range = Range(n: int, m: Option<int>)

  /** Why `parse_range` raises `ValueError`: a piece `int()` rejects, or a
      range with more than one '-' (too many values to unpack). */
  datatype SpecError = BadInteger(piece: string) | TooManyDashes(token: string)

  // ---------------------------------------------------------------------
  // parse_range

  /** The start of an "N-M" range: 0 when N is empty, else `int(N) - 1`. */
  function LowerBound(piece: string): (r: Option<int>)
    ensures piece == "" ==> r == Some(0)
  {
    if piece == "" then Some(0)
    else match ParseInt(piece) case None => None case Some(v) => Some(v - 1)
  }

  /** The end of an "N-M" range: none (to the end) when M is empty, else `int(M)`. */
  function UpperBound(piece: string): (r: Option<Option<int>>)
    ensures piece == "" ==> r == Some(None)
  {
    if piece == "" then Some(None)
    else match ParseInt(piece) case None => None case Some(v) => Some(Some(v))
  }

  /** One stripped token of a FIELDSPEC: "N", "N-M", "-M", "N-" or "-". */
  function ParseToken(tok: string): (r: Result<Range, SpecError>)
  {
    ParsePieces(tok, Split(tok, '-'))
  }

  /** A token from the pieces between its dashes: one piece is a single
      field, two are the ends of a range, more are an error. */
  function ParsePieces(tok: string, p: seq<string>): (r: Result<Range, SpecError>)
    requires |p| >= 1
    ensures r.Err? && r.error.TooManyDashes? <==> |p| > 2
    ensures r.Ok? && |p| == 1 ==> r.value.m.Some? && r.value.n == r.value.m.value - 1
  {
    if |p| == 1 then
      match ParseInt(p[0])
      case None => Err(BadInteger(p[0]))
      case Some(m) => Ok(Range(m - 1, Some(m)))
    else if |p| == 2 then
      match LowerBound(p[0])
      case None => Err(BadInteger(p[0]))
      case Some(n) =>
        match UpperBound(p[1])
        case None => Err(BadInteger(p[1]))
        case Some(m) => Ok(Range(n, m))
    else Err(TooManyDashes(tok))
  }

  /** The loop of `parse_range` over its tokens: the ranges in token order,
      or the error of the first token that fails. */
  function ParseTokens(toks: seq<string>): (r: Result<seq<Range>, SpecError>)
    ensures r.Ok? <==> forall k :: 0 <= k < |toks| ==> ParseToken(Trim(toks[k])).Ok?
    ensures r.Ok? ==> |r.value| == |toks|
    ensures r.Ok? ==> forall k :: 0 <= k < |toks| ==> r.value[k] == ParseToken(Trim(toks[k])).value
  {
    if |toks| == 0 then Ok([])
    else
      match ParseToken(Trim(toks[0]))
      case Err(e) => Err(e)
      case Ok(rg) =>
        match ParseTokens(toks[1..])
        case Err(e) => Err(e)
        case Ok(rest) => Ok([rg] + rest)
  }

  /** `parse_range(s)`: one range per comma-separated token. */
  function ParseRange(s: string): (r: Result<seq<Range>, SpecError>)
    ensures r.Ok? ==> |r.value| >= 1
  {
    ParseTokens(Split(s, ','))
  }

  // ---------------------------------------------------------------------
  // Python slicing

  /** A slice bound as Python resolves it for a sequence of length `len`:
      a negative bound counts from the end, and the result is clamped into
      `0..len`. */
  function Clamp(i: int, len: nat): (r: nat)
    ensures r <= len
    ensures 0 <= i <= len ==> r == i
    ensures i > len ==> r == len
    ensures -(len as int) <= i < 0 ==> r == i + len
    ensures i < -(len as int) ==> r == 0
  {
    if i < 0 then (if i + len < 0 then 0 else i + len)
    else if i > len then len
    else i
  }

  /** The positions `lo..hi` that `s[n:m]` covers; an upper bound below the
      lower one gives the empty slice at `lo`. */
  function Bounds(len: nat, rg: Range): (b: (nat, nat))
    ensures b.0 <= b.1 <= len
  {
    var lo := Clamp(rg.n, len);
    var hi := match rg.m case None => len case Some(m) => Clamp(m, len);
    if hi < lo then (lo, lo) else (lo, hi)
  }

  /** `s[n:m]`. */
  function Slice<T>(s: seq<T>, rg: Range): (r: seq<T>)
    ensures |r| == Bounds(|s|, rg).1 - Bounds(|s|, rg).0
    ensures forall k :: 0 <= k < |r| ==> r[k] == s[Bounds(|s|, rg).0 + k]
  {
    var (lo, hi) := Bounds(|s|, rg);
    s[lo..hi]
  }

  /** `s[n:m] = v`: the covered positions are replaced by `v`; everything
      before and after them is kept. */
  function SliceAssign<T>(s: seq<T>, rg: Range, v: seq<T>): (r: seq<T>)
    ensures var (lo, hi) := Bounds(|s|, rg);
      |r| == |s| - (hi - lo) + |v| && r[..lo] == s[..lo] && r[lo..lo + |v|] == v && r[lo + |v|..] == s[hi..]
  {
    var (lo, hi) := Bounds(|s|, rg);
    s[..lo] + v + s[hi..]
  }

  // ---------------------------------------------------------------------
  // Properties

  /** Slicing what was just assigned gives it back. */
  lemma SliceOfAssign<T>(s: seq<T>, rg: Range, v: seq<T>)
    ensures Slice(SliceAssign(s, rg, v), Range(Bounds(|s|, rg).0, Some(Bounds(|s|, rg).0 + |v|))) == v
  {
    var r := SliceAssign(s, rg, v);
    var lo := Bounds(|s|, rg).0;
    assert Bounds(|r|, Range(lo, Some(lo + |v|))) == (lo, lo + |v|);
  }

  /** Assigning a slice its own contents changes nothing. */
  lemma AssignOwnSlice<T>(s: seq<T>, rg: Range)
    ensures SliceAssign(s, rg, Slice(s, rg)) == s
  {
    var (lo, hi) := Bounds(|s|, rg);
    assert s[..lo] + s[lo..hi] + s[hi..] == s;
  }

  /** A slice that starts at or past the end is empty. */
  lemma SlicePastEnd<T>(s: seq<T>, n: int, m: Option<int>)
    requires n >= |s|
    ensures Slice(s, Range(n, m)) == []
    ensures Bounds(|s|, Range(n, m)) == (|s|, |s|)
  {
  }

  /** The 1-based inclusive field range "a-b" with 1 <= a selects fields a..b
      counted from 1, as far as the row reaches. */
  lemma FieldsOfRange<T>(s: seq<T>, a: int, b: int)
    requires 1 <= a && 0 <= b
    ensures var lo := if a - 1 < |s| then a - 1 else |s|;
      var hi := if b < lo then lo else if b < |s| then b else |s|;
      Slice(s, Range(a - 1, Some(b))) == s[lo..hi]
  {
  }

  /** A numeral of decimal digits is read by `int()` as its value. */
  lemma ParseDigits(d: string)
    requires |d| > 0 && AllDigits(d)
    ensures ParseInt(d) == Some(DigitsValue(d) as int)
  {
    SignedNumeral(false, d);
    assert Sign(false) + d == d;
  }

  lemma SplitTwo(a: string, b: string)
    requires '-' !in a && '-' !in b
    ensures Split(a + "-" + b, '-') == [a, b]
  {
    assert Join(['-'], [a, b]) == a + "-" + b by {
      assert Join(['-'], [b]) == b;
    }
    SplitJoin([a, b], '-');
  }

  /** "N" is field N alone: the slice `[N-1:N]`. */
  lemma TokenField(tok: string, v: int)
    requires '-' !in tok && ParseInt(tok) == Some(v)
    ensures ParseToken(tok) == Ok(Range(v - 1, Some(v)))
  {
    SplitNoSeparator(tok, '-');
    assert ParsePieces(tok, [tok]) == Ok(Range(v - 1, Some(v)));
  }

  /** "N-M" is fields N through M: the slice `[N-1:M]`. */
  lemma TokenSpan(a: string, b: string, x: int, y: int)
    requires '-' !in a && '-' !in b && ParseInt(a) == Some(x) && ParseInt(b) == Some(y)
    ensures ParseToken(a + "-" + b) == Ok(Range(x - 1, Some(y)))
  {
    SplitTwo(a, b);
    assert a != "" && b != "";
    assert ParsePieces(a + "-" + b, [a, b]) == Ok(Range(x - 1, Some(y)));
  }

  /** "-M" is fields 1 through M: the slice `[0:M]`. */
  lemma TokenUpTo(b: string, y: int)
    requires '-' !in b && ParseInt(b) == Some(y)
    ensures ParseToken("-" + b) == Ok(Range(0, Some(y)))
  {
    SplitTwo("", b);
    assert "" + "-" + b == "-" + b;
    assert b != "";
    assert ParsePieces("-" + b, ["", b]) == Ok(Range(0, Some(y)));
  }

  /** "N-" is field N to the last: the slice `[N-1:]`. */
  lemma TokenFrom(a: string, x: int)
    requires '-' !in a && ParseInt(a) == Some(x)
    ensures ParseToken(a + "-") == Ok(Range(x - 1, None))
  {
    SplitTwo(a, "");
    assert a + "-" + "" == a + "-";
    assert a != "";
    assert ParsePieces(a + "-", [a, ""]) == Ok(Range(x - 1, None));
  }

  /** "-" alone is every field: the slice `[0:]`. */
  lemma TokenAll()
    ensures ParseToken("-") == Ok(Range(0, None))
  {
    SplitTwo("", "");
    assert "" + "-" + "" == "-";
    assert ParsePieces("-", ["", ""]) == Ok(Range(0, None));
  }

  /** A single field whose text `int()` rejects is refused. */
  lemma TokenNotInteger(tok: string)
    requires '-' !in tok && ParseInt(tok) == None
    ensures ParseToken(tok) == Err(BadInteger(tok))
  {
    SplitNoSeparator(tok, '-');
    assert ParsePieces(tok, [tok]) == Err(BadInteger(tok));
  }

  /** A range end that is neither empty nor an integer is refused. */
  lemma TokenBadEnd(a: string, b: string, x: int)
    requires '-' !in a && '-' !in b && ParseInt(a) == Some(x) && b != "" && ParseInt(b) == None
    ensures ParseToken(a + "-" + b) == Err(BadInteger(b))
  {
    SplitTwo(a, b);
    assert a != "";
    assert ParsePieces(a + "-" + b, [a, b]) == Err(BadInteger(b));
  }

  /** An empty token, as in "1,,2" or a trailing comma, is not an integer. */
  lemma TokenEmpty()
    ensures ParseToken("") == Err(BadInteger(""))
  {
    assert Split("", '-') == [""];
    assert Trim("") == "";
    assert ParseInt("") == None;
  }

  /** A token with two dashes, such as "1-2-3", is refused. */
  lemma TokenTwoDashes(a: string, b: string, c: string)
    ensures ParseToken(a + "-" + b + "-" + c) == Err(TooManyDashes(a + "-" + b + "-" + c))
  {
    var t := a + "-" + b + "-" + c;
    SplitCount(t, '-');
    CountConcat(a + "-" + b + "-", c, '-');
    CountConcat(a + "-" + b, "-", '-');
    CountConcat(a + "-", b, '-');
    CountConcat(a, "-", '-');
  }
}
