/** The score displays: a score is shown as decimal text, padded with one
    leading zero below ten ("00" .. "09", then "10", "11", ...). */
module ScoreDisplay {

  /** The character of decimal digit d. */
  function DigitChar(d: nat): (c: char)
    requires d < 10
    ensures '0' <= c <= '9'
    ensures DigitValue(c) == d
  {
    (48 + d) as char
  }

  /** The value of a decimal digit character (0 for anything else). */
  function DigitValue(c: char): nat
  {
    if '0' <= c <= '9' then c as int - 48 else 0
  }

  predicate IsDigits(s: string)
  {
    forall i | 0 <= i < |s| :: '0' <= s[i] <= '9'
  }

  /** The decimal numeral of n without leading zeros, as a number is
      converted to text when it is assigned to an element's text. */
  function Decimal(n: nat): (s: string)
    ensures 1 <= |s| && IsDigits(s)
    ensures |s| == 1 <==> n < 10
    ensures s[0] == '0' <==> n == 0
    decreases n
  {
    if n < 10 then [DigitChar(n)] else Decimal(n / 10) + [DigitChar(n % 10)]
  }

  /** The value of a string of decimal digits, leading zeros allowed: the
      reading a person makes of a score display. */
  function ParseDecimal(s: string): nat
  {
    if s == [] then 0 else 10 * ParseDecimal(s[..|s| - 1]) + DigitValue(s[|s| - 1])
  }

  /** The text shown for score n. */
  function ScoreText(n: nat): (s: string)
    ensures IsDigits(s) && 2 <= |s|
    ensures |s| == 2 <==> n < 100
    ensures s[0] == '0' <==> n < 10
  {
    if n < 10 then "0" + Decimal(n) else Decimal(n)
  }

  /** Reading a numeral gives back the number it was made from. */
  lemma {:induction false} ParseDecimalOfDecimal(n: nat)
    ensures ParseDecimal(Decimal(n)) == n
    decreases n
  {
    var s := Decimal(n);
    if n < 10 {
      assert s[..|s| - 1] == [];
    } else {
      assert s[..|s| - 1] == Decimal(n / 10);
      ParseDecimalOfDecimal(n / 10);
    }
  }

  /** A score display reads back as the score it shows. */
  lemma ScoreTextRoundTrip(n: nat)
    ensures ParseDecimal(ScoreText(n)) == n
  {
    ParseDecimalOfDecimal(n);
    if n < 10 {
      var s := ScoreText(n);
      assert s[..1] == "0";
      assert ParseDecimal(s[..1]) == 0 by {
        assert s[..1][..0] == [];
      }
    }
  }

  /** Different scores are shown as different texts. */
  lemma ScoreTextInjective(a: nat, b: nat)
    ensures ScoreText(a) == ScoreText(b) <==> a == b
  {
    ScoreTextRoundTrip(a);
    ScoreTextRoundTrip(b);
  }
}
