/** Integers in decimal. */
module DecimalText {

  function DigitChar(d: nat): char
    requires d < 10
  {
    (d + 48) as char
  }

  function Digits(n: nat): (s: string)
    ensures s != "" && forall c :: c in s ==> '0' <= c <= '9'
  {
    if n < 10 then [DigitChar(n)] else Digits(n / 10) + [DigitChar(n % 10)]
  }

  /** "{}" of an int. */
  function Decimal(n: int): (s: string)
    ensures s != "" && forall c :: c in s ==> '0' <= c <= '9' || c == '-'
  {
    if n < 0 then "-" + Digits(-n) else Digits(n)
  }

  /** How many digits a number has. */
  function DigitCount(n: nat): nat {
    if n < 10 then 1 else DigitCount(n / 10) + 1
  }

  lemma {:induction false} DigitsLength(n: nat)
    ensures |Digits(n)| == DigitCount(n)
  {
    if n >= 10 { DigitsLength(n / 10); }
  }

  /** Written numbers have no leading zeros. */
  lemma {:induction false} NoLeadingZeros(n: nat)
    ensures n > 0 ==> Digits(n)[0] != '0'
  {
    if n >= 10 { NoLeadingZeros(n / 10); }
  }
}
