/** csvtool's `numeric(x)`: read a cell as an integer or a float when it can
    be, optionally after dropping a leading dollar sign and grouping commas,
    and otherwise give the cell back unchanged. */
module Numeric {
  import opened Text
  import opened Cells

  /** The currency symbols of the optional first character class of `re_numeric`. */
  predicate IsCurrency(ch: char)
  {
    ch == '$' || ch == '\U{20AC}' || ch == '\U{A3}' || ch == '\U{A5}' || ch == '\U{20A3}' || ch == '\U{20B9}' || ch == '\U{FEAA}'
    || ch == '\U{FEDB}' || ch == '\U{FE87}' || ch == '\U{FDFC}' || ch == '\U{20BB}' || ch == '\U{20BD}' || ch == '\U{20BE}' || ch == '\U{20BA}'
    || ch == '\U{20BC}' || ch == '\U{20B8}' || ch == '\U{20B4}' || ch == '\U{20B7}' || ch == '\U{E3F}' || ch == '\U{C6D0}' || ch == '\U{20AB}'
    || ch == '\U{20AE}' || ch == '\U{20AF}' || ch == '\U{20B1}' || ch == '\U{20B3}' || ch == '\U{20B5}' || ch == '\U{20B2}' || ch == '\U{20AA}'
    || ch == '\U{20B0}'
  }

  /** The rest of `re_numeric`: digits and commas, then optionally a point
      and digits, up to the end of the string. */
  predicate NumericBody(t: string)
  {
    |t| == 0
    || ((t[0] == ',' || IsDigit(t[0])) && NumericBody(t[1..]))
    || (t[0] == '.' && AllDigits(t[1..]))
  }

  predicate MatchesToEnd(s: string)
  {
    NumericBody(s) || (|s| > 0 && IsCurrency(s[0]) && NumericBody(s[1..]))
  }

  /** `re_numeric.match(s)` succeeds. The pattern's `$` also matches just
      before a final newline. */
  predicate Matches(s: string)
  {
    MatchesToEnd(s) || (|s| > 0 && s[|s| - 1] == '\n' && MatchesToEnd(s[..|s| - 1]))
  }

  /** Drop a leading "$", then every comma. */
  function Clean(y: string): (r: string)
    ensures ',' !in r
  {
    var y' := if |y| > 0 && y[0] == '$' then y[1..] else y;
    ReplaceChar(y', ',', "")
  }

  /** An optional leading sign: whether it is '-', and what follows it. */
  function SplitSign(t: string): (bool, string)
  {
    if |t| > 0 && (t[0] == '+' || t[0] == '-') then (t[0] == '-', t[1..]) else (false, t)
  }

  /** Python's `int(y)`: white space, an optional sign, then decimal digits. */
  function ParseInt(y: string): Option<int>
  {
    UnsignedInt(SplitSign(Trim(y)))
  }

  /** `int()` once white space and sign are gone: at least one digit and nothing else. */
  function UnsignedInt(sd: (bool, string)): Option<int>
  {
    if |sd.1| > 0 && AllDigits(sd.1) then Some(Signed(sd.0, DigitsValue(sd.1))) else None
  }

  /** `-n` when `neg`, else `n`. */
  function Signed(neg: bool, n: nat): (r: int)
    ensures neg ==> r <= 0
    ensures !neg ==> r >= 0
    ensures r == n || r == -(n as int)
  {
    if neg then -(n as int) else n
  }

  /** The text before and after the first '.' of `d`, if it has one. */
  function DotSplit(d: string): (r: Option<(string, string)>)
    ensures r.Some? ==> '.' !in r.value.0 && d == r.value.0 + "." + r.value.1
    ensures r.None? ==> '.' !in d
  {
    if |d| == 0 then None
    else if d[0] == '.' then Some(("", d[1..]))
    else match DotSplit(d[1..])
      case None => None
      case Some((w, f)) => Some(([d[0]] + w, f))
  }

  /** A float as the exact decimal that was written: sign, integer part, fraction digits. */
  datatype Decimal = Decimal(neg: bool, whole: nat, frac: string)

  /** Python's `float(y)`, restricted to positional notation: white space, an
      optional sign, then digits with at most one point and at least one digit. */
  function ParseFloat(y: string): (r: Option<Decimal>)
    ensures r.Some? ==> AllDigits(r.value.frac)
  {
    UnsignedFloat(SplitSign(Trim(y)))
  }

  /** `float()` once white space and sign are gone. */
  function UnsignedFloat(sd: (bool, string)): (r: Option<Decimal>)
    ensures r.Some? ==> AllDigits(r.value.frac)
  {
    var (neg, d) := sd;
    if |d| > 0 && AllDigits(d) then Some(Decimal(neg, DigitsValue(d), ""))
    else match DotSplit(d)
      case None => None
      case Some((w, f)) =>
        if AllDigits(w) && AllDigits(f) && |w| + |f| > 0
        then Some(Decimal(neg, DigitsValue(w), f))
        else None
  }

  /** The fraction digits without their trailing zeros. */
  function StripZeros(f: string): (r: string)
    requires AllDigits(f)
    ensures AllDigits(r) && |r| <= |f| && r == f[..|r|]
    ensures |r| > 0 ==> r[|r| - 1] != '0'
    ensures forall k :: |r| <= k < |f| ==> f[k] == '0'
  {
    if |f| > 0 && f[|f| - 1] == '0' then StripZeros(f[..|f| - 1]) else f
  }

  /** `y.is_integer()` for a float: every fraction digit is 0. */
  predicate IsInteger(d: Decimal)
  {
    forall k :: 0 <= k < |d.frac| ==> d.frac[k] == '0'
  }

  /** Lines 51-53: the float, narrowed to an `int` when it is integral. */
  function Narrow(d: Decimal): (c: Cell)
    requires AllDigits(d.frac)
    ensures c.Int? <==> IsInteger(d)
    ensures c.Int? ==> c.n == Signed(d.neg, d.whole)
    ensures c.Dec? ==> c.neg == d.neg && c.whole == d.whole
    ensures c.Dec? ==> |c.frac| <= |d.frac| && d.frac[..|c.frac|] == c.frac
    ensures c.Dec? ==> forall k :: |c.frac| <= k < |d.frac| ==> d.frac[k] == '0'
  {
    var f := StripZeros(d.frac);
    if |f| == 0 then Int(Signed(d.neg, d.whole)) else Dec(d.neg, d.whole, f)
  }

  /** Lines 42-54 on the text `y`: the number `int()` or `float()` makes of
      it (narrowed when integral), after cleaning when `re_numeric` matches. */
  function ParseNumber(y: string): (r: Option<Cell>)
    ensures r.Some? ==> r.value.Int? || r.value.Dec?
    ensures r.None? <==> ParseInt(Cleaned(y)).None? && ParseFloat(Cleaned(y)).None?
  {
    IntOrFloat(ParseInt(Cleaned(y)), ParseFloat(Cleaned(y)))
  }

  /** Lines 42-47: the text `int()` and `float()` are given, cleaned only
      when `re_numeric` matches. */
  function Cleaned(y: string): string
  {
    if Matches(y) then Clean(y) else y
  }

  /** The `int()` reading when there is one, else the narrowed `float()` reading. */
  function IntOrFloat(i: Option<int>, f: Option<Decimal>): (r: Option<Cell>)
    requires f.Some? ==> AllDigits(f.value.frac)
    ensures r.Some? ==> r.value.Int? || r.value.Dec?
  {
    if i.Some? then Some(Int(i.value))
    else if f.Some? then Some(Narrow(f.value))
    else None
  }

  /** `numeric(x)`: a number when `int()` or `float()` accepts the (cleaned)
      text of `x`, otherwise `x` itself. It never fails. */
  function Numeric(x: Cell): (r: Cell)
    ensures r == x || r.Int? || r.Dec?
    ensures r.Str? ==> r == x
  {
    match ParseNumber(PyStr(x))
    case Some(v) => v
    case None => x
  }

  /** `[numeric(v) for v in row]`. */
  function NumericRow(row: Row): (r: Row)
    ensures |r| == |row|
    ensures forall k :: 0 <= k < |r| ==> r[k] == Numeric(row[k])
  {
    seq(|row|, k requires 0 <= k < |row| => Numeric(row[k]))
  }

  // ---------------------------------------------------------------------
  // Properties

  lemma {:induction false} DigitsAreBody(t: string)
    requires AllDigits(t)
    ensures NumericBody(t)
  {
    if |t| > 0 {
      DigitsAreBody(t[1..]);
    }
  }

  lemma {:induction false} DecimalIsBody(w: string, f: string)
    requires AllDigits(w) && AllDigits(f)
    ensures NumericBody(w + "." + f)
  {
    if |w| == 0 {
      assert (w + "." + f)[1..] == f;
    } else {
      assert (w + "." + f)[1..] == w[1..] + "." + f;
      DecimalIsBody(w[1..], f);
    }
  }

  lemma {:induction false} DotSplitDecimal(w: string, f: string)
    requires '.' !in w
    ensures DotSplit(w + "." + f) == Some((w, f))
  {
    if |w| == 0 {
      assert (w + "." + f)[1..] == f;
    } else {
      assert (w + "." + f)[1..] == w[1..] + "." + f;
      DotSplitDecimal(w[1..], f);
      assert [w[0]] + w[1..] == w;
    }
  }

  lemma NotInDigits(s: string, ch: char)
    requires AllDigits(s) && !IsDigit(ch)
    ensures ch !in s
  {
    forall k | 0 <= k < |s| ensures s[k] != ch {
      assert IsDigit(s[k]);
    }
  }

  /** `int()` and `float()` see a numeral with an optional minus sign as
      written: there is nothing to trim and the sign comes off. */
  lemma SignedNumeral(neg: bool, d: string)
    requires |d| > 0 && IsDigit(d[0]) && IsDigit(d[|d| - 1])
    ensures ParseInt(Sign(neg) + d) == UnsignedInt((neg, d))
    ensures ParseFloat(Sign(neg) + d) == UnsignedFloat((neg, d))
  {
    var y := Sign(neg) + d;
    assert y[|y| - 1] == d[|d| - 1];
    assert y[0] == if neg then '-' else d[0];
    assert !IsSpace(y[0]) && !IsSpace(y[|y| - 1]);
    assert Trim(y) == y;
    if neg {
      assert y[1..] == d;
    } else {
      assert y == d;
    }
    assert SplitSign(y) == (neg, d);
  }

  /** A text that starts with '-' is not matched by `re_numeric`. */
  lemma MinusNotMatched(s: string)
    requires |s| > 0 && s[0] == '-'
    ensures !Matches(s)
  {
    assert !IsCurrency('-');
  }

  lemma CleanPlain(y: string)
    requires |y| > 0 && y[0] != '$' && ',' !in y
    ensures Clean(y) == y
  {
  }

  /** `numeric`'s parse of a numeral with an optional minus sign. */
  lemma ParseSignedNumeral(neg: bool, d: string)
    requires |d| > 0 && IsDigit(d[0]) && IsDigit(d[|d| - 1]) && ',' !in d
    requires !neg ==> NumericBody(d)
    ensures ParseNumber(Sign(neg) + d) == IntOrFloat(UnsignedInt((neg, d)), UnsignedFloat((neg, d)))
  {
    var y := Sign(neg) + d;
    if neg {
      assert y[0] == '-' && y[|y| - 1] == d[|d| - 1];
      MinusNotMatched(y);
    } else {
      assert y == d;
      assert Matches(y);
      CleanPlain(y);
    }
    SignedNumeral(neg, d);
  }

  lemma ParseNumberInt(n: int)
    ensures ParseNumber(IntStr(n)) == Some(Int(n))
  {
    var neg := n < 0;
    var m: nat := if neg then -n else n;
    var u := NatStr(m);
    NatStrValue(m);
    DigitsAreBody(u);
    NotInDigits(u, ',');
    assert IntStr(n) == Sign(neg) + u;
    ParseSignedNumeral(neg, u);
    assert UnsignedInt((neg, u)) == Some(n);
  }

  lemma UnsignedDecimal(neg: bool, w: string, f: string)
    requires AllDigits(w) && AllDigits(f) && |f| > 0
    ensures UnsignedInt((neg, w + "." + f)) == None
    ensures UnsignedFloat((neg, w + "." + f)) == Some(Decimal(neg, DigitsValue(w), f))
  {
    var d := w + "." + f;
    NotInDigits(w, '.');
    DotSplitDecimal(w, f);
    assert !AllDigits(d) by { assert d[|w|] == '.'; }
  }

  /** `numeric`'s parse of a positional decimal numeral with an optional minus sign. */
  lemma ParseDecimalText(neg: bool, w: string, f: string)
    requires |w| > 0 && AllDigits(w) && AllDigits(f) && |f| > 0
    ensures ParseNumber(Sign(neg) + (w + "." + f)) == Some(Narrow(Decimal(neg, DigitsValue(w), f)))
  {
    var d := w + "." + f;
    assert d[0] == w[0] && d[|d| - 1] == f[|f| - 1];
    assert ',' !in d by {
      NotInDigits(w, ',');
      NotInDigits(f, ',');
    }
    DecimalIsBody(w, f);
    ParseSignedNumeral(neg, d);
    UnsignedDecimal(neg, w, f);
  }

  lemma ParseNumberDec(neg: bool, whole: nat, frac: Fraction)
    ensures ParseNumber(PyStr(Dec(neg, whole, frac))) == Some(Dec(neg, whole, frac))
  {
    var w := NatStr(whole);
    NatStrValue(whole);
    assert PyStr(Dec(neg, whole, frac)) == Sign(neg) + (w + "." + frac);
    ParseDecimalText(neg, w, frac);
    assert StripZeros(frac) == frac;
  }

  /** `numeric(x)` is the number its text parses to, when it parses. */
  lemma NumericByText(x: Cell, v: Cell)
    requires ParseNumber(PyStr(x)) == Some(v)
    ensures Numeric(x) == v
  {
  }

  /** Lines 26-27 and 55: when neither `int()` nor `float()` accepts the
      (cleaned) text, `numeric` gives `x` back; a string is given back only
      then. */
  lemma NumericNoParse(x: Cell)
    ensures ParseInt(Cleaned(PyStr(x))).None? && ParseFloat(Cleaned(PyStr(x))).None? ==> Numeric(x) == x
    ensures x.Str? ==>
      (Numeric(x) == x <==> ParseInt(Cleaned(x.s)).None? && ParseFloat(Cleaned(x.s)).None?)
  {
  }

  /** The text of a number parses back to that number. */
  lemma ParseNumberOfText(c: Cell)
    requires c.Int? || c.Dec?
    ensures ParseNumber(PyStr(c)) == Some(c)
  {
    match c
    case Int(n) => ParseNumberInt(n);
    case Dec(neg, whole, frac) => ParseNumberDec(neg, whole, frac);
  }

  /** `numeric` of an `Int` or `Dec` cell (through `str`) gives that cell again. */
  lemma NumericOfNumber(c: Cell)
    requires c.Int? || c.Dec?
    ensures Numeric(c) == c
  {
    ParseNumberOfText(c);
    NumericByText(c, c);
  }

  /** Coercing twice is the same as coercing once. */
  lemma NumericIdempotent(x: Cell)
    ensures Numeric(Numeric(x)) == Numeric(x)
  {
    var r := Numeric(x);
    if r.Int? || r.Dec? {
      NumericOfNumber(r);
    }
  }

  /** Coercing a string, printing the result with `str` and coercing that
      text again gives the same value. */
  lemma NumericTextIdempotent(s: string)
    ensures Numeric(Str(PyStr(Numeric(Str(s))))) == Numeric(Str(s))
  {
    var r := Numeric(Str(s));
    if r.Int? || r.Dec? {
      ParseNumberOfText(r);
      NumericByText(Str(PyStr(r)), r);
    }
  }

  predicate DigitsAndCommas(t: string)
  {
    forall k :: 0 <= k < |t| ==> t[k] == ',' || IsDigit(t[k])
  }

  lemma {:induction false} DigitsAndCommasBody(t: string)
    requires DigitsAndCommas(t)
    ensures NumericBody(t)
  {
    if |t| > 0 {
      DigitsAndCommasBody(t[1..]);
    }
  }

  /** `t.replace(",", "")`. */
  function RemoveCommas(t: string): (r: string)
    ensures ',' !in r
    ensures DigitsAndCommas(t) ==> AllDigits(r)
  {
    RemoveCommasDigits(t);
    ReplaceChar(t, ',', "")
  }

  lemma {:induction false} RemoveCommasDigits(t: string)
    ensures DigitsAndCommas(t) ==> AllDigits(ReplaceChar(t, ',', ""))
  {
    if |t| > 0 {
      RemoveCommasDigits(t[1..]);
    }
  }

  /** A dollar amount with grouping commas reads as the integer its digits spell. */
  lemma DollarAmount(t: string)
    requires DigitsAndCommas(t) && |RemoveCommas(t)| > 0
    ensures Numeric(Str("$" + t)) == Int(DigitsValue(RemoveCommas(t)))
  {
    var y := "$" + t;
    var u := RemoveCommas(t);
    DigitsAndCommasBody(t);
    assert y[1..] == t;
    assert Matches(y);
    assert Clean(y) == u;
    SignedNumeral(false, u);
    assert Sign(false) + u == u;
  }

  /** A character Python's `int()` or `float()` may find first: a digit (of
      any script, so every non-ASCII character other than the pattern's
      currency symbols is counted in), a sign, a point, white space, or the
      first letter of "nan", "inf" or "infinity" in either case. */
  predicate MayLeadNumber(ch: char)
  {
    IsDigit(ch) || ch in {'+', '-', '.', 'n', 'N', 'i', 'I'} || IsSpace(ch)
    || (ch >= '\U{80}' && !IsCurrency(ch))
  }

  /** `int()` and `float()` read no text whose first character cannot lead
      a number. */
  lemma NoNumberAfter(ch: char, y: string)
    requires |y| > 0 && y[0] == ch
    requires !MayLeadNumber(ch)
    ensures ParseInt(y) == None && ParseFloat(y) == None
  {
    assert TrimLeft(y) == y;
    var r := TrimRight(y);
    assert r == Trim(y);
    if |r| > 0 {
      assert r[0] == ch;
      assert SplitSign(r) == (false, r);
      assert !AllDigits(r);
      match DotSplit(r)
      case None =>
      case Some((w, f)) =>
        assert |w| > 0 && w[0] == ch;
    }
  }

  lemma ReplaceCharHead(s: string, c: char, t: string)
    requires |s| > 0 && s[0] != c
    ensures |ReplaceChar(s, c, t)| > 0 && ReplaceChar(s, c, t)[0] == s[0]
  {
  }

  /** A text that cannot start a number stays a string. */
  lemma TextStays(y: string)
    requires |y| > 0
    requires !MayLeadNumber(y[0]) && y[0] != ',' && y[0] != '$'
    ensures Numeric(Str(y)) == Str(y)
  {
    var y' := Cleaned(y);
    assert |y'| > 0 && y'[0] == y[0] by {
      ReplaceCharHead(y, ',', "");
    }
    NoNumberAfter(y[0], y');
  }

  /** Only the dollar sign is ever stripped: a value that starts with any
      other currency symbol of the pattern stays a string. */
  lemma OtherCurrencyStays(ch: char, t: string)
    requires IsCurrency(ch) && ch != '$'
    ensures Numeric(Str([ch] + t)) == Str([ch] + t)
  {
    assert !IsDigit(ch) && !IsSpace(ch) && !MayLeadNumber(ch);
    TextStays([ch] + t);
  }

  /** A positional decimal numeral reads as that decimal, narrowed to an
      integer when its fraction is all zeros. */
  lemma NumericPointText(w: string, f: string)
    requires |w| > 0 && AllDigits(w) && AllDigits(f) && |f| > 0
    ensures Numeric(Str(w + "." + f)) == Narrow(Decimal(false, DigitsValue(w), f))
  {
    ParseDecimalText(false, w, f);
    assert Sign(false) + (w + "." + f) == w + "." + f;
    NumericByText(Str(w + "." + f), Narrow(Decimal(false, DigitsValue(w), f)));
  }

  lemma {:induction false} DigitsAndCommasPointBody(t: string, f: string)
    requires DigitsAndCommas(t) && AllDigits(f)
    ensures NumericBody(t + "." + f)
  {
    if |t| == 0 {
      assert (t + "." + f)[1..] == f;
    } else {
      assert (t + "." + f)[1..] == t[1..] + "." + f;
      DigitsAndCommasPointBody(t[1..], f);
    }
  }

  /** Dropping the grouping comma between two runs of digits. */
  lemma RemoveOneComma(a: string, b: string)
    requires AllDigits(a) && AllDigits(b)
    ensures DigitsAndCommas(a + "," + b)
    ensures RemoveCommas(a + "," + b) == a + b
  {
    var t := a + "," + b;
    forall k | 0 <= k < |t|
      ensures t[k] == ',' || IsDigit(t[k])
    {
      if k < |a| { assert t[k] == a[k]; } else if k > |a| { assert t[k] == b[k - |a| - 1]; }
    }
    NotInDigits(a, ',');
    NotInDigits(b, ',');
    var cb := "," + b;
    assert t == a + cb;
    ReplaceCharConcat(a, cb, ',', "");
    assert cb[0] == ',' && cb[1..] == b;
    assert ReplaceChar(cb, ',', "") == ReplaceChar(b, ',', "");
  }

  lemma DollarPointMatches(t: string, f: string)
    requires DigitsAndCommas(t) && AllDigits(f)
    ensures Matches("$" + t + "." + f)
  {
    var y := "$" + t + "." + f;
    assert y[1..] == t + "." + f;
    DigitsAndCommasPointBody(t, f);
  }

  lemma DollarPointClean(t: string, f: string)
    requires DigitsAndCommas(t) && AllDigits(f)
    ensures Clean("$" + t + "." + f) == RemoveCommas(t) + "." + f
  {
    var y := "$" + t + "." + f;
    assert y[1..] == t + ("." + f);
    ReplaceCharConcat(t, "." + f, ',', "");
    NotInDigits(f, ',');
    assert ',' !in "." + f;
  }

  /** `int()` and `float()` of a plain decimal numeral. */
  lemma ReadDecimal(w: string, f: string)
    requires |w| > 0 && AllDigits(w) && AllDigits(f) && |f| > 0
    ensures IntOrFloat(ParseInt(w + "." + f), ParseFloat(w + "." + f)) == Some(Narrow(Decimal(false, DigitsValue(w), f)))
  {
    var d := w + "." + f;
    assert d[0] == w[0] && d[|d| - 1] == f[|f| - 1];
    SignedNumeral(false, d);
    assert Sign(false) + d == d;
    UnsignedDecimal(false, w, f);
  }

  /** A dollar amount with grouping commas and a fraction reads as the
      decimal its digits spell. */
  lemma DollarDecimal(t: string, f: string)
    requires DigitsAndCommas(t) && |RemoveCommas(t)| > 0 && AllDigits(f) && |f| > 0
    ensures Numeric(Str("$" + t + "." + f)) == Narrow(Decimal(false, DigitsValue(RemoveCommas(t)), f))
  {
    var y := "$" + t + "." + f;
    var u := RemoveCommas(t);
    DollarPointMatches(t, f);
    DollarPointClean(t, f);
    ReadDecimal(u, f);
    assert ParseNumber(y) == Some(Narrow(Decimal(false, DigitsValue(u), f)));
  }
}
