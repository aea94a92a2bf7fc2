/** `Salary.convert_to_rub` (statistics.py and the identical copy in table.py):
    the floor of the mean of the salary bounds, converted to roubles with a
    fixed ten-currency rate table.
 */
module Salaries {
  import opened Results
  import opened Numbers
  import opened Text
  import opened CsvReader

  /** `currency_to_rub`: roubles per unit of each of the ten table codes;
      `None` for any other code. */
  function Rate(code: string): (r: Option<real>)
    ensures r.Some? ==> r.value > 0.0
    ensures r.Some? <==> code in Codes
  {
    if code == "AZN" then Some(35.68)
    else if code == "BYR" then Some(23.91)
    else if code == "EUR" then Some(59.90)
    else if code == "GEL" then Some(21.74)
    else if code == "KGS" then Some(0.76)
    else if code == "KZT" then Some(0.13)
    else if code == "RUR" then Some(1.0)
    else if code == "UAH" then Some(1.64)
    else if code == "USD" then Some(60.66)
    else if code == "UZS" then Some(0.0055)
    else None
  }

  /** The table's codes, in table order. */
  const Codes: seq<string> := ["AZN", "BYR", "EUR", "GEL", "KGS", "KZT", "RUR", "UAH", "USD", "UZS"]

  /** `float(x)` on a cleaned field: text is parsed, and a list of lines is a
      TypeError. */
  function FloatOf(f: Field): (r: Result<real>)
    ensures f.Lines? ==> r == Fail(TypeError)
    ensures f.Text? ==> r == ParseDecimal(f.text)
  {
    match f
    case Text(t) => ParseDecimal(t)
    case Lines(_) => Fail(TypeError)
  }

  /** `currency_to_rub[code]`: a list of lines cannot be a dict key
      (TypeError), and a code outside the table is a KeyError. */
  function RateOf(code: Field): (r: Result<real>)
    ensures r.Ok? <==> code.Text? && code.text in Codes
    ensures code.Text? && code.text !in Codes ==> r == Fail(KeyError)
    ensures r.Ok? ==> Rate(code.text) == Some(r.value) && r.value > 0.0
  {
    match code
    case Lines(_) => Fail(TypeError)
    case Text(t) => if Rate(t).None? then Fail(KeyError) else Ok(Rate(t).value)
  }

  /** `(to + from) // 2` on floats: the greatest integer not above the mean. */
  function MeanFloor(from: real, to: real): (m: int)
    ensures m as real <= (from + to) / 2.0 < m as real + 1.0
  {
    ((to + from) / 2.0).Floor
  }

  /** `convert_to_rub`: the upper bound is converted first, then the lower
      bound, then the currency is looked up, so the first failing step names
      the error. */
  function ConvertToRub(from: Field, to: Field, code: Field): (r: Result<real>)
    ensures r.Ok? <==> FloatOf(to).Ok? && FloatOf(from).Ok? && RateOf(code).Ok?
    ensures FloatOf(to).Fail? ==> r == Fail(FloatOf(to).error)
  {
    var t := FloatOf(to);
    if t.Fail? then Fail(t.error)
    else
      var f := FloatOf(from);
      if f.Fail? then Fail(f.error)
      else
        var rate := RateOf(code);
        if rate.Fail? then Fail(rate.error)
        else Ok(MeanFloor(f.value, t.value) as real * rate.value)
  }

  /** In roubles the result is the floor of the mean itself, and for any code
      the result divided by the rate is a whole number within one of the mean. */
  lemma ConvertToRubMeaning(from: string, to: string, code: string)
    requires ParseDecimal(from).Ok? && ParseDecimal(to).Ok? && code in Codes
    ensures ConvertToRub(Text(from), Text(to), Text(code)).Ok?
    ensures var r := ConvertToRub(Text(from), Text(to), Text(code)).value;
            var m := r / RateOf(Text(code)).value;
            m == m.Floor as real &&
            m <= (ParseDecimal(from).value + ParseDecimal(to).value) / 2.0 < m + 1.0
    ensures code == "RUR" ==>
      ConvertToRub(Text(from), Text(to), Text(code)).value
        == MeanFloor(ParseDecimal(from).value, ParseDecimal(to).value) as real
  {
    var rate := RateOf(Text(code)).value;
    var mean := MeanFloor(ParseDecimal(from).value, ParseDecimal(to).value);
    ConvertToRubValue(from, to, code);
    ScaleBack(mean, rate, (ParseDecimal(from).value + ParseDecimal(to).value) / 2.0);
    if code == "RUR" {
      assert Rate("RUR") == Some(1.0);
    }
  }

  /** On parsable bounds and a table code the result is the floored mean
      times the rate. */
  lemma ConvertToRubValue(from: string, to: string, code: string)
    requires ParseDecimal(from).Ok? && ParseDecimal(to).Ok? && code in Codes
    ensures ConvertToRub(Text(from), Text(to), Text(code))
         == Ok(MeanFloor(ParseDecimal(from).value, ParseDecimal(to).value) as real * RateOf(Text(code)).value)
  {
  }

  /** Multiplying a whole number by a positive rate and dividing it back
      gives the whole number. */
  lemma ScaleBack(m: int, rate: real, mean: real)
    requires rate > 0.0 && m as real <= mean < m as real + 1.0
    ensures var back := (m as real * rate) / rate;
            back == m as real && back == back.Floor as real && back <= mean < back + 1.0
  {
  }

  lemma ParseTen()
    ensures ParseDecimal("10") == Ok(10.0)
  {
    ParseDecimalOfNatToString(10);
  }

  lemma ParseTwenty()
    ensures ParseDecimal("20") == Ok(20.0)
  {
    ParseDecimalOfNatToString(20);
  }

  /** `float('<whole>.2')` for a two-digit whole part. */
  lemma ParseTenthExample(whole: nat)
    requires 10 <= whole < 100
    ensures ParseDecimal(NatToString(whole) + ".2") == Ok(whole as real + 0.2)
  {
    ParseDecimalOfParts(NatToString(whole), "2");
    assert DigitsValue("2") == 2 by { assert "2"[..0] == ""; }
  }

  /** The first doctest: 10..20 USD gives 909.9, for any texts that `float`
      reads as those bounds. */
  lemma ConvertToRubDollarExample(lo: string, hi: string)
    requires ParseDecimal(lo) == Ok(10.0) && ParseDecimal(hi) == Ok(20.0)
    ensures ConvertToRub(Text(lo), Text(hi), Text("USD")) == Ok(909.9)
  {
    ConvertToRubValue(lo, hi, "USD");
    assert MeanFloor(10.0, 20.0) == 15;
    assert RateOf(Text("USD")) == Ok(60.66);
  }

  /** The second doctest: 10.2..40.2 RUR gives 25.0. */
  lemma ConvertToRubRoubleExample(lo: string, hi: string)
    requires ParseDecimal(lo) == Ok(10.2) && ParseDecimal(hi) == Ok(40.2)
    ensures ConvertToRub(Text(lo), Text(hi), Text("RUR")) == Ok(25.0)
  {
    ConvertToRubValue(lo, hi, "RUR");
    assert MeanFloor(10.2, 40.2) == 25;
    assert RateOf(Text("RUR")) == Ok(1.0);
  }

  /** The doctest inputs `'10'`, `'20'`, `'10.2'` and `'40.2'` read as expected. */
  lemma DoctestInputs()
    ensures ParseDecimal("10") == Ok(10.0) && ParseDecimal("20") == Ok(20.0)
    ensures ParseDecimal(NatToString(10) + ".2") == Ok(10.2)
    ensures ParseDecimal(NatToString(40) + ".2") == Ok(40.2)
  {
    ParseTen();
    ParseTwenty();
    ParseTenthExample(10);
    ParseTenthExample(40);
  }
}
