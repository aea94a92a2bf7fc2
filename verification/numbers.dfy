/** Number text: Python's `int(s)`, `float(s)` and `str(n)` on the plain
    decimal forms the pipeline meets (`'2007'`, `'35000.0'`, `'-5'`).
 */
module Numbers {
  import opened Results
  import opened Text

  predicate IsDigit(c: char) {
    '0' <= c <= '9'
  }

  predicate AllDigits(s: string) {
    forall i | 0 <= i < |s| :: IsDigit(s[i])
  }

  function DigitChar(d: nat): (c: char)
    requires d < 10
    ensures IsDigit(c)
  {
    ['0', '1', '2', '3', '4', '5', '6', '7', '8', '9'][d]
  }

  function DigitValue(c: char): (d: nat)
    requires IsDigit(c)
    ensures d < 10
  {
    c as int - '0' as int
  }

  lemma DigitRoundTrip(d: nat)
    requires d < 10
    ensures DigitValue(DigitChar(d)) == d
  {
  }

  /** The value of a string of decimal digits, most significant first. */
  function DigitsValue(s: string): nat
    requires AllDigits(s)
    decreases |s|
  {
    if |s| == 0 then 0 else DigitsValue(s[..|s| - 1]) * 10 + DigitValue(s[|s| - 1])
  }

  /** The value of a two-digit field such as a month or an hour. */
  lemma DigitsValue2(s: string)
    requires |s| == 2 && AllDigits(s)
    ensures DigitsValue(s) == DigitValue(s[0]) * 10 + DigitValue(s[1])
  {
    var h := s[..1];
    assert h[..0] == [] && h[0] == s[0];
    assert DigitsValue(h) == DigitValue(s[0]);
    assert DigitsValue(s) == DigitsValue(h) * 10 + DigitValue(s[1]);
  }

  /** The value of a four-digit field such as a year. */
  lemma DigitsValue4(s: string)
    requires |s| == 4 && AllDigits(s)
    ensures DigitsValue(s) == ((DigitValue(s[0]) * 10 + DigitValue(s[1])) * 10 + DigitValue(s[2])) * 10 + DigitValue(s[3])
  {
    var t := s[..3];
    assert t[..2] == s[..2] && t[2] == s[2];
    assert s[..2][0] == s[0] && s[..2][1] == s[1];
    DigitsValue2(s[..2]);
    assert DigitsValue(t) == DigitsValue(s[..2]) * 10 + DigitValue(s[2]);
    assert DigitsValue(s) == DigitsValue(t) * 10 + DigitValue(s[3]);
  }

  /** A digit character is the character of its value. */
  lemma DigitCharOfValue(c: char)
    requires IsDigit(c)
    ensures DigitChar(DigitValue(c)) == c
  {
  }

  /** `n` written with two digits, zero-padded: `%02d`, and the `%m`, `%d`,
      `%H`, `%M`, `%S` fields of `strftime`. */
  function Pad2(n: nat): (r: string)
    requires n < 100
    ensures |r| == 2 && AllDigits(r)
  {
    [DigitChar(n / 10), DigitChar(n % 10)]
  }

  /** `n` written with four digits, zero-padded: the `%Y` field. */
  function Pad4(n: nat): (r: string)
    requires n < 10000
    ensures |r| == 4 && AllDigits(r)
  {
    Pad2(n / 100) + Pad2(n % 100)
  }

  /** A two-digit field reads back as its number. */
  lemma Pad2Value(n: nat)
    requires n < 100
    ensures DigitsValue(Pad2(n)) == n
  {
    DigitsValue2(Pad2(n));
    DigitRoundTrip(n / 10);
    DigitRoundTrip(n % 10);
  }

  /** Two digits are the two-digit field of their value. */
  lemma Pad2OfDigits(s: string)
    requires |s| == 2 && AllDigits(s)
    ensures DigitsValue(s) < 100 && Pad2(DigitsValue(s)) == s
  {
    DigitsValue2(s);
    var a, b := DigitValue(s[0]), DigitValue(s[1]);
    assert (a * 10 + b) / 10 == a && (a * 10 + b) % 10 == b;
    DigitCharOfValue(s[0]);
    DigitCharOfValue(s[1]);
    assert Pad2(DigitsValue(s)) == [s[0], s[1]];
  }

  /** Four digits read as two pairs: the first pair counts hundreds. */
  lemma DigitsValuePairs(x: string, y: string)
    requires |x| == 2 && |y| == 2 && AllDigits(x) && AllDigits(y)
    ensures AllDigits(x + y) && DigitsValue(x + y) == DigitsValue(x) * 100 + DigitsValue(y)
  {
    var s := x + y;
    assert s[0] == x[0] && s[1] == x[1] && s[2] == y[0] && s[3] == y[1];
    DigitsValue4(s);
    DigitsValue2(x);
    DigitsValue2(y);
  }

  /** A four-digit field reads back as its number. */
  lemma Pad4Value(n: nat)
    requires n < 10000
    ensures DigitsValue(Pad4(n)) == n
  {
    DigitsValuePairs(Pad2(n / 100), Pad2(n % 100));
    Pad2Value(n / 100);
    Pad2Value(n % 100);
  }

  /** Four digits are the four-digit field of their value. */
  lemma Pad4OfDigits(s: string)
    requires |s| == 4 && AllDigits(s)
    ensures DigitsValue(s) < 10000 && Pad4(DigitsValue(s)) == s
  {
    var x, y := s[..2], s[2..];
    assert s == x + y;
    DigitsValuePairs(x, y);
    Pad2OfDigits(x);
    Pad2OfDigits(y);
    var v := DigitsValue(s);
    assert v / 100 == DigitsValue(x) && v % 100 == DigitsValue(y);
  }

  /** `10 ** n`. */
  function Pow10(n: nat): (p: nat)
    ensures p >= 1
  {
    if n == 0 then 1 else 10 * Pow10(n - 1)
  }

  /** `str(n)` for a non-negative integer: the shortest decimal digits. */
  function NatToString(n: nat): (r: string)
    ensures |r| > 0 && AllDigits(r)
    ensures DigitsValue(r) == n
    ensures |r| > 1 ==> r[0] != '0'
  {
    if n < 10 then [DigitChar(n)]
    else
      var r := NatToString(n / 10) + [DigitChar(n % 10)];
      assert r[..|r| - 1] == NatToString(n / 10);
      r
  }

  /** `str(n)` has at most `k + 1` digits exactly when `n < 10 ** (k + 1)`. */
  lemma {:induction false} NatToStringLength(n: nat, k: nat)
    ensures |NatToString(n)| <= k + 1 <==> n < Pow10(k + 1)
    decreases k
  {
    if n >= 10 {
      assert |NatToString(n)| == |NatToString(n / 10)| + 1;
      if k == 0 {
        assert Pow10(1) == 10;
      } else {
        NatToStringLength(n / 10, k - 1);
        assert n / 10 < Pow10(k) <==> n < 10 * Pow10(k);
      }
    } else {
      assert Pow10(k + 1) >= 10;
    }
  }

  /** `str(i)` for any integer. */
  function IntToString(i: int): (r: string)
    ensures |r| > 0
  {
    if i < 0 then "-" + NatToString(-i) else NatToString(i)
  }

  /** `int(s)` for an optionally signed run of decimal digits; anything else
      raises ValueError. */
  function ParseInt(s: string): (r: Result<int>)
    ensures r.Fail? ==> r.error == ValueError
  {
    if |s| > 0 && (s[0] == '-' || s[0] == '+') then
      var body := s[1..];
      if |body| > 0 && AllDigits(body) then
        Ok(if s[0] == '-' then -(DigitsValue(body) as int) else DigitsValue(body))
      else Fail(ValueError)
    else if |s| > 0 && AllDigits(s) then Ok(DigitsValue(s))
    else Fail(ValueError)
  }

  /** `int` of a run of digits is its value. */
  lemma ParseIntOfDigits(s: string)
    requires |s| > 0 && AllDigits(s)
    ensures ParseInt(s) == Ok(DigitsValue(s) as int)
  {
    assert IsDigit(s[0]);
  }

  /** `int(str(i)) == i`. */
  lemma ParseIntOfIntToString(i: int)
    ensures ParseInt(IntToString(i)) == Ok(i)
  {
    if i < 0 {
      assert IntToString(i)[1..] == NatToString(-i);
    } else {
      var r := NatToString(i);
      assert r[0] != '-' && r[0] != '+' by { assert IsDigit(r[0]); }
    }
  }

  /** The value of the unsigned decimal text `digits[.fraction]`. */
  function UnsignedDecimal(s: string): (r: Result<real>)
    ensures r.Ok? ==> r.value >= 0.0
    ensures r.Fail? ==> r.error == ValueError
  {
    if '.' in s then
      var k := IndexOf(s, '.');
      var whole := s[..k];
      var frac := s[k + 1..];
      if AllDigits(whole) && AllDigits(frac) && |whole| + |frac| > 0 then
        Ok(DecimalValue(whole, frac))
      else Fail(ValueError)
    else if |s| > 0 && AllDigits(s) then Ok(DigitsValue(s) as real)
    else Fail(ValueError)
  }

  /** `float(s)` for optionally signed decimal text such as `'35000.0'`,
      `'.5'` or `'-7'`; anything else raises ValueError. */
  function ParseDecimal(s: string): (r: Result<real>)
    ensures r.Fail? ==> r.error == ValueError
  {
    if |s| > 0 && (s[0] == '-' || s[0] == '+') then
      var m :- UnsignedDecimal(s[1..]);
      Ok(if s[0] == '-' then -m else m)
    else UnsignedDecimal(s)
  }

  /** A run of digits holds no dot. */
  lemma DigitsHaveNoDot(w: string)
    requires AllDigits(w)
    ensures '.' !in w
  {
    forall i | 0 <= i < |w| ensures w[i] != '.' { assert IsDigit(w[i]); }
  }

  /** The value of the decimal text `whole.frac`. */
  function DecimalValue(whole: string, frac: string): (r: real)
    requires AllDigits(whole) && AllDigits(frac)
    ensures r >= 0.0
  {
    DigitsValue(whole) as real + DigitsValue(frac) as real / Pow10(|frac|) as real
  }

  /** The unsigned value of `'<digits>.<digits>'`: the whole part plus the fraction. */
  lemma UnsignedDecimalOfParts(w: string, f: string)
    requires AllDigits(w) && AllDigits(f) && |w| + |f| > 0
    ensures UnsignedDecimal(w + "." + f)
         == Ok(DecimalValue(w, f))
  {
    var s := w + "." + f;
    DigitsHaveNoDot(w);
    IndexOfFirst(w, '.', f);
    var k := IndexOf(s, '.');
    assert k == |w|;
    assert s[..k] == w;
    assert s[k + 1..] == f;
  }

  /** `float('<digits>.<digits>')` is the whole part plus the fraction. */
  lemma ParseDecimalOfParts(w: string, f: string)
    requires AllDigits(w) && AllDigits(f) && |w| + |f| > 0
    ensures ParseDecimal(w + "." + f)
         == Ok(DecimalValue(w, f))
  {
    UnsignedDecimalOfParts(w, f);
    var s := w + "." + f;
    if |w| > 0 {
      assert s[0] == w[0] && IsDigit(w[0]);
    } else {
      assert s[0] == '.';
    }
  }

  /** `float(str(n)) == n` for a non-negative integer. */
  lemma ParseDecimalOfNatToString(n: nat)
    ensures ParseDecimal(NatToString(n)) == Ok(n as real)
  {
    var r := NatToString(n);
    assert IsDigit(r[0]);
    assert forall i | 0 <= i < |r| :: r[i] != '.';
  }
}
