/** The values csvtool moves around: a row is a list of cells, and a cell is
    whatever a reader produced or `numeric` made of it — a string, an
    integer, a (non-integral) float, or Python's `None`. */
module Cells {

  datatype Option<+T> = None | Some(value: T)

  datatype Result<+T, +E> = Ok(value: T) | Err(error: E)

  // ---------------------------------------------------------------------
  // Decimal digits

  predicate IsDigit(ch: char)
  {
    '0' <= ch <= '9'
  }

  predicate AllDigits(s: string)
  {
    forall k :: 0 <= k < |s| ==> IsDigit(s[k])
  }

  function DigitChar(d: nat): (ch: char)
    requires d < 10
    ensures IsDigit(ch)
  {
    ('0' as int + d) as char
  }

  /** The value of a string of decimal digits, most significant first ("" is 0). */
  function DigitsValue(s: string): nat
    requires AllDigits(s)
  {
    if |s| == 0 then 0
    else DigitsValue(s[..|s| - 1]) * 10 + (s[|s| - 1] as int - '0' as int)
  }

  /** `str(n)` for a non-negative integer: its shortest decimal numeral. */
  function NatStr(n: nat): (s: string)
    ensures |s| > 0 && AllDigits(s)
    ensures |s| > 1 ==> s[0] != '0'
  {
    if n < 10 then [DigitChar(n)] else NatStr(n / 10) + [DigitChar(n % 10)]
  }

  /** Reading back the numeral of `n` gives `n`. */
  lemma {:induction false} NatStrValue(n: nat)
    ensures DigitsValue(NatStr(n)) == n
  {
    if n >= 10 {
      NatStrValue(n / 10);
      var s := NatStr(n);
      assert s[..|s| - 1] == NatStr(n / 10);
    }
  }

  /** A normalised fraction part: decimal digits, at least one, the last not '0'. */
  predicate IsFraction(f: string)
  {
    |f| > 0 && AllDigits(f) && f[|f| - 1] != '0'
  }

  type Fraction = f: string | IsFraction(f) witness "5"

  // ---------------------------------------------------------------------
  // Cells and rows

  /** A cell. `Dec(neg, whole, frac)` is the float `-whole.frac` or
      `whole.frac`, held exactly; its fraction is never all zeros, so a `Dec`
      is never integral (integral floats are narrowed to `Int` by `numeric`). */
  datatype Cell =
    | Str(s: string)
    | Int(n: int)
    | Dec(neg: bool, whole: nat, frac: Fraction)
    | Null

  type Row = seq<Cell>

  /** The minus sign of a negative number's text. */
  function Sign(neg: bool): string
  {
    if neg then "-" else ""
  }

  /** `str(n)` for any integer. */
  function IntStr(n: int): (s: string)
    ensures |s| > 0
  {
    if n < 0 then "-" + NatStr(-n) else NatStr(n)
  }

  /** Python's `str(x)` of a cell. */
  function PyStr(c: Cell): string
  {
    match c
    case Str(s) => s
    case Int(n) => IntStr(n)
    case Dec(neg, whole, frac) => Sign(neg) + NatStr(whole) + "." + frac
    case Null => "None"
  }

  /** Python truthiness of a cell (`if x`): the empty string, 0 and `None` are false. */
  predicate Truthy(c: Cell)
  {
    match c
    case Str(s) => |s| > 0
    case Int(n) => n != 0
    case Dec(_, _, _) => true
    case Null => false
  }

  /** csvtool's `width(x)`: the number of characters of `str(x)`. */
  function Width(c: Cell): (w: nat)
    ensures c.Str? ==> w == |c.s|
    ensures c.Int? ==> w == |IntStr(c.n)|
  {
    |PyStr(c)|
  }

  /** A row of strings, as the command-line values and CSV input are. */
  function StrRow(values: seq<string>): (r: Row)
    ensures |r| == |values|
    ensures forall k :: 0 <= k < |r| ==> r[k] == Str(values[k])
  {
    seq(|values|, k requires 0 <= k < |values| => Str(values[k]))
  }

  /** `[str(x) for x in cells]`. */
  function Texts(cells: Row): (r: seq<string>)
    ensures |r| == |cells|
    ensures forall k :: 0 <= k < |r| ==> r[k] == PyStr(cells[k])
  {
    seq(|cells|, k requires 0 <= k < |cells| => PyStr(cells[k]))
  }

  /** `[none_as if v is None else v for v in row]`: what both writers do to
      a row before writing it. */
  function FillNulls(row: Row, noneAs: string): (r: Row)
    ensures |r| == |row|
    ensures forall k :: 0 <= k < |r| ==> !r[k].Null?
    ensures forall k :: 0 <= k < |r| ==> row[k].Null? ==> r[k] == Str(noneAs)
    ensures forall k :: 0 <= k < |r| ==> !row[k].Null? ==> r[k] == row[k]
  {
    seq(|row|, k requires 0 <= k < |row| => if row[k].Null? then Str(noneAs) else row[k])
  }
}
