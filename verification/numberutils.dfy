/** The keyboard-tolerant number reader used by the input fields. */
module NumberUtils {
  import opened Wrappers
  import Text
  import Numbers

  /** `parseNumber`: blank input reads as 0; otherwise the first comma is
      taken as a decimal point and the longest leading decimal is read,
      with 0 instead of `NaN` when there is none. */
  function ParseNumber(value: string): (r: real)
    ensures Text.IsBlank(value) ==> r == 0.0
  {
    if value == "" || Text.Trim(value) == "" then 0.0
    else
      match Numbers.ParseFloat(Text.ReplaceFirstChar(value, ',', '.'))
      case None => 0.0
      case Some(x) => x
  }

  /** Away from blank text, `parseNumber` reads the longest decimal prefix
      once the first comma is a point, and gives 0 (never `NaN`) when there
      is none. */
  lemma ParseNumberLongest(value: string)
    requires !Text.IsBlank(value)
    ensures var t := Text.TrimStart(Text.ReplaceFirstChar(value, ',', '.'));
      && (Numbers.NoDecimalPrefix(t) ==> ParseNumber(value) == 0.0)
      && (!Numbers.NoDecimalPrefix(t) ==>
            exists n: nat :: Numbers.LongestDecimalPrefix(t, n) && ParseNumber(value) == Numbers.DecimalValue(t[..n]))
  {
    Numbers.ParseFloatLongest(Text.ReplaceFirstChar(value, ',', '.'));
  }

  lemma DecimalOnePointFive()
    ensures Numbers.ParseFloat("1.5") == Some(1.5)
  {
    var t := "1.5";
    assert t[..1] == "1" && t[2..] == "5";
    assert Numbers.DigitsValue("1") == 1;
    assert Numbers.FractionValue("5") == 0.5;
    Numbers.ParseFloatPointed(t, 1, 1.5);
  }

  lemma ParseNumberPoint()
    ensures ParseNumber("1.5") == 1.5
  {
    assert !Text.IsSpace('1');
    assert Text.Trim("1.5") != "";
    assert Text.ReplaceFirstChar("1.5", ',', '.') == "1.5";
    DecimalOnePointFive();
  }

  lemma ParseNumberComma()
    ensures ParseNumber("1,5") == 1.5
  {
    CommaBecomesPoint();
    DecimalOnePointFive();
  }

  /** The comma of `1,5` is a point once normalised, and the text is not
      blank. */
  lemma CommaBecomesPoint()
    ensures Text.Trim("1,5") != ""
    ensures Text.ReplaceFirstChar("1,5", ',', '.') == "1.5"
  {
    assert !Text.IsSpace('1');
    assert Text.IndexOfChar("1,5", ',') == Some(1);
  }

  lemma ParseNumberInteger()
    ensures ParseNumber("10") == 10.0
  {
    var t := "10";
    assert !Text.IsBlank(t) && ',' !in t by {
      assert !Text.IsSpace(t[0]);
    }
    assert Numbers.DigitsValue(t) == 10 by {
      assert t[..1] == "1";
    }
    Numbers.ParseFloatDigits(t, 10.0);
    ReadsAsParseFloat(t, Some(10.0));
  }

  /** Away from blank text and commas, `parseNumber` is `parseFloat` with
      0 for `NaN`. */
  lemma ReadsAsParseFloat(value: string, p: Option<real>)
    requires !Text.IsBlank(value) && ',' !in value && Numbers.ParseFloat(value) == p
    ensures ParseNumber(value) == p.GetOr(0.0)
  {
  }

  lemma ParseNumberEmpty()
    ensures ParseNumber("") == 0.0
  {
  }

  lemma ParseNumberLetters()
    ensures ParseNumber("abc") == 0.0
  {
    var t := "abc";
    assert !Text.IsBlank(t) && ',' !in t by {
      assert !Text.IsSpace(t[0]);
    }
    Numbers.ParseFloatNone(t);
    ReadsAsParseFloat(t, None);
  }
}
