/**
  Quality values (section 3.9 of RFC 2616), held as whole thousandths so that
  "q=0.8" is 800 and the default "q=1" is 1000:

    qvalue = ( "0" [ "." 0*3DIGIT ] ) | ( "1" [ "." 0*3("0") ] )

  Parsing is lenient: a value that does not fit the grammar counts as 1000, and
  digits after the third decimal are ignored.
*/
module QValue {

  type Quality = q: int | 0 <= q <= 1000

  const Full: Quality := 1000

  predicate IsDigit(c: char) { '0' <= c <= '9' }

  predicate AllDigits(s: string) { forall i | 0 <= i < |s| :: IsDigit(s[i]) }

  function Digit(c: char): (d: nat)
    requires IsDigit(c)
    ensures d < 10
  {
    c as int - '0' as int
  }

  function DigitChar(d: nat): (c: char)
    requires d < 10
    ensures IsDigit(c) && Digit(c) == d
  {
    (d + '0' as int) as char
  }

  /** The first three decimals of a fraction, in thousandths (missing decimals are zeros). */
  function Thousandths(ds: string): (n: nat)
    requires AllDigits(ds)
    ensures n < 1000
  {
    (if |ds| > 0 then 100 * Digit(ds[0]) else 0)
    + (if |ds| > 1 then 10 * Digit(ds[1]) else 0)
    + (if |ds| > 2 then Digit(ds[2]) else 0)
  }

  /** A value with a leading "0" or "1", then nothing or a dot and decimal digits. */
  predicate WellFormed(s: string)
  {
    |s| >= 1 && (s[0] == '0' || s[0] == '1') && (|s| == 1 || (s[1] == '.' && AllDigits(s[2..])))
  }

  /** The value of the `q` parameter; anything malformed counts as full quality. */
  function Parse(s: string): Quality
  {
    if !WellFormed(s) || s[0] == '1' then Full
    else if |s| == 1 then 0
    else Thousandths(s[2..])
  }

  /** The canonical text of a quality: "1", or "0." and exactly three decimals. */
  function Format(q: Quality): (s: string)
    ensures WellFormed(s)
  {
    if q == Full then "1"
    else "0." + [DigitChar(q / 100), DigitChar(q / 10 % 10), DigitChar(q % 10)]
  }

  /** Every quality has a text that parses back to it. */
  lemma ParseFormat(q: Quality)
    ensures Parse(Format(q)) == q
  {
    if q != Full {
      var s := Format(q);
      assert s[2..] == [DigitChar(q / 100), DigitChar(q / 10 % 10), DigitChar(q % 10)];
      assert Thousandths(s[2..]) == 100 * (q / 100) + 10 * (q / 10 % 10) + q % 10;
    }
  }

  /** Only a leading "0" can lower the quality: every other text means full quality. */
  lemma ParseLenient(s: string)
    requires s == [] || s[0] != '0'
    ensures Parse(s) == Full
  {
  }

  /** A zero quality (refusal) is written "0", "0.", "0.0", "0.00" or "0.000", maybe with more digits. */
  lemma ParseZero(s: string)
    ensures Parse(s) == 0 <==> WellFormed(s) && s[0] == '0' && forall i | 2 <= i < |s| && i < 5 :: s[i] == '0'
  {
    if WellFormed(s) && s[0] == '0' && |s| > 1 {
      var ds := s[2..];
      assert forall i | 0 <= i < |ds| :: ds[i] == s[i + 2];
    }
  }

  /** The quality values written in the example headers. */
  lemma ExampleQualities()
    ensures Parse("0.2") == 200 && Parse("0.5") == 500 && Parse("0.8") == 800
    ensures Parse("0.9") == 900 && Parse("0.1") == 100 && Parse("0") == 0
    ensures Parse("1.0") == Full && Parse("1") == Full
  {
  }
}
