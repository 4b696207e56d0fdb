/** Facts about the literal texts in the examples below, kept apart from
    module Numeric so that the solver sees only the string functions. */
module NumeralTexts {
  import opened Cells
  import opened Text

  /** The value of the numeral "123456", one digit at a time. */
  lemma Value123456()
    ensures DigitsValue("123456") == 123456
  {
    assert DigitsValue("1") == 1;
    assert "12"[..1] == "1";
    assert DigitsValue("12") == 12;
    assert "123"[..2] == "12";
    assert DigitsValue("123") == 123;
    assert "1234"[..3] == "123";
    assert DigitsValue("1234") == 1234;
    assert "12345"[..4] == "1234";
    assert DigitsValue("12345") == 12345;
    assert "123456"[..5] == "12345";
  }

  lemma PointText()
    ensures "3" + "." + "25" == "3.25"
    ensures DigitsValue("3") == 3
  {
  }

  lemma DollarText()
    ensures "$" + ("123" + "," + "456") + "." + "789" == "$123,456.789"
    ensures "123" + "456" == "123456"
  {
  }
}

/** The examples in the documentation of csvtool's `numeric`, each an
    instance of one of the general lemmas of module Numeric. */
module NumericExamples {
  import opened Cells
  import opened Text
  import opened Numeric
  import NumeralTexts

  lemma NumericExampleInt()
    ensures Numeric.Numeric(Str("4")) == Int(4)
  {
    ParseNumberInt(4);
    assert IntStr(4) == "4";
    NumericByText(Str("4"), Int(4));
  }

  lemma FourZerosText()
    ensures "4" + "." + "0000" == "4.0000"
    ensures DigitsValue("4") == 4
    ensures Narrow(Decimal(false, 4, "0000")) == Int(4)
  {
    assert StripZeros("0000") == "";
  }

  lemma NumericExampleIntegralFloat()
    ensures Numeric.Numeric(Str("4.0000")) == Int(4)
  {
    NumericPointText("4", "0000");
    FourZerosText();
  }

  lemma NumericExampleFloat()
    ensures Numeric.Numeric(Str("3.25")) == Dec(false, 3, "25")
  {
    NumericPointText("3", "25");
    NumeralTexts.PointText();
    Narrow325();
  }

  lemma Narrow325()
    ensures Narrow(Decimal(false, 3, "25")) == Dec(false, 3, "25")
  {
    assert StripZeros("25") == "25";
  }

  lemma NumericExampleText()
    ensures Numeric.Numeric(Str("testing")) == Str("testing")
  {
    TextStays("testing");
  }

  lemma NumericExampleDollar()
    ensures Numeric.Numeric(Str("$123,456.789")) == Dec(false, 123456, "789")
  {
    RemoveOneComma("123", "456");
    NumeralTexts.DollarText();
    DollarDecimal("123" + "," + "456", "789");
    NumeralTexts.Value123456();
    assert StripZeros("789") == "789";
  }

  /** A number followed by a word is neither an `int` nor a `float`, so
      `numeric` gives the text back. */
  lemma NumericExampleApples()
    ensures Numeric.Numeric(Str("12 apples")) == Str("12 apples")
  {
    ApplesNotMatched();
    ApplesNoNumber();
    NumericNoParse(Str("12 apples"));
  }

  lemma ApplesNotMatched()
    ensures Cleaned("12 apples") == "12 apples"
  {
    var y := "12 apples";
    assert !NumericBody(y[2..]);
    assert !NumericBody(y);
    assert !Matches(y);
  }

  lemma ApplesNoNumber()
    ensures ParseInt("12 apples").None? && ParseFloat("12 apples").None?
  {
    var y := "12 apples";
    assert !IsSpace(y[0]) && !IsSpace(y[|y| - 1]);
    assert Trim(y) == y;
    assert SplitSign(y) == (false, y);
    assert !IsDigit(y[2]);
    assert '.' !in y;
  }
}
