/** Python's int() on decimal digit strings and str() on integers. */
module Decimal {
  import opened Wrappers

  predicate IsDigit(c: char) {
    '0' <= c <= '9'
  }

  predicate AllDigits(s: string) {
    forall i :: 0 <= i < |s| ==> IsDigit(s[i])
  }

  function DigitChar(d: nat): (c: char)
    requires d < 10
    ensures IsDigit(c)
  {
    ('0' as int + d) as char
  }

  /** The number a digit string denotes, most significant digit first. */
  function DigitsValue(s: string): nat
    requires AllDigits(s)
  {
    if s == [] then 0
    else 10 * DigitsValue(s[..|s| - 1]) + (s[|s| - 1] as int - '0' as int)
  }

  /**
   * int(s): a non-empty run of decimal digits denotes its value (leading zeros allowed);
   * anything else raises ValueError, here None.
   */
  function ParseInt(s: string): (r: Option<int>)
    ensures r.Some? <==> s != [] && AllDigits(s)
    ensures r.Some? ==> r.value >= 0
  {
    if s != [] && AllDigits(s) then Some(DigitsValue(s)) else None
  }

  /** str(n) for n >= 0: digits without leading zeros. */
  function NatToStr(n: nat): (s: string)
    ensures s != [] && AllDigits(s)
  {
    if n < 10 then [DigitChar(n)] else NatToStr(n / 10) + [DigitChar(n % 10)]
  }

  /** str(i): a minus sign before the digits of a negative number. */
  function IntToStr(i: int): string
  {
    if i < 0 then "-" + NatToStr(-i) else NatToStr(i)
  }

  lemma {:induction false} DigitsValueOfNatToStr(n: nat)
    ensures DigitsValue(NatToStr(n)) == n
  {
    if n >= 10 {
      var s := NatToStr(n);
      DigitsValueOfNatToStr(n / 10);
      assert s[..|s| - 1] == NatToStr(n / 10);
    }
  }

  /**
   * int(str(n)) == n for every non-negative n. Python's default limit of 4300 digits on
   * int/str conversion is not modelled: beyond it both calls raise ValueError.
   */
  lemma ParseIntOfIntToStr(n: int)
    requires n >= 0
    ensures ParseInt(IntToStr(n)) == Some(n)
  {
    DigitsValueOfNatToStr(n);
  }

  /** Digit text without a superfluous leading zero: the form str() gives a non-negative int. */
  predicate Canonical(s: string) {
    s != [] && AllDigits(s) && (s == "0" || s[0] != '0')
  }

  /** Digit text that starts with a non-zero digit denotes a positive number. */
  lemma {:induction false} LeadingNonZeroPositive(s: string)
    requires s != [] && AllDigits(s) && s[0] != '0'
    ensures DigitsValue(s) >= 1
  {
    if |s| > 1 {
      LeadingNonZeroPositive(s[..|s| - 1]);
    }
  }

  /** str(int(s)) == s for canonical digit text: str() gives back exactly the text int() read. */
  lemma {:induction false} NatToStrOfDigitsValue(s: string)
    requires Canonical(s)
    ensures NatToStr(DigitsValue(s)) == s
  {
    var d := s[|s| - 1] as int - '0' as int;
    assert DigitChar(d) == s[|s| - 1];
    if |s| > 1 {
      var prefix := s[..|s| - 1];
      assert prefix[0] == s[0];
      LeadingNonZeroPositive(prefix);
      NatToStrOfDigitsValue(prefix);
      assert s == prefix + [s[|s| - 1]];
    }
  }

  /** int() reads canonical text back to a number whose str() is that text. */
  lemma IntToStrOfParseInt(s: string)
    requires Canonical(s)
    ensures ParseInt(s).Some? && IntToStr(ParseInt(s).value) == s
  {
    NatToStrOfDigitsValue(s);
  }

  /** A leading zero is lost: int("080") is 80, whose str() is "80". */
  lemma LeadingZeroIsDropped()
    ensures ParseInt("080") == Some(80)
    ensures IntToStr(80) == "80"
  {
    assert DigitsValue("080"[..2]) == 8 by {
      assert "080"[..2] == "08";
      assert "08"[..1] == "0";
    }
    assert NatToStr(8) == "8";
    assert DigitChar(0) == '0';
  }

  /** The rendering of a non-negative number holds only digits. */
  lemma IntToStrDigits(n: int)
    requires n >= 0
    ensures AllDigits(IntToStr(n)) && IntToStr(n) != []
    ensures forall c :: c in IntToStr(n) ==> IsDigit(c)
  {
  }

  /** The rendering of a negative number starts with '-'. */
  lemma IntToStrNegative(n: int)
    requires n < 0
    ensures IntToStr(n)[0] == '-'
  {
  }
}
