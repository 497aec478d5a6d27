/**
  Decimal rendering of header values (`strconv.FormatInt(x, 10)`,
  `strconv.Itoa`) and the parser a client reads them back with
  (`strconv.Atoi`).
 */
module Strconv {
  import opened GoValues

  predicate IsDigit(c: char) {
    '0' <= c <= '9'
  }

  predicate AllDigits(s: string) {
    forall i :: 0 <= i < |s| ==> IsDigit(s[i])
  }

  function DigitChar(d: int): (c: char)
    requires 0 <= d <= 9
    ensures IsDigit(c) && c as int - '0' as int == d
  {
    ('0' as int + d) as char
  }

  function DigitValue(c: char): (d: int)
    requires IsDigit(c)
    ensures 0 <= d <= 9 && DigitChar(d) == c
  {
    c as int - '0' as int
  }

  /** The decimal digits of `n`, most significant first, without leading zeros. */
  function FormatNat(n: nat): (s: string)
    ensures 0 < |s| && AllDigits(s)
    ensures 1 < |s| ==> s[0] != '0'
    decreases n
  {
    if n < 10 then [DigitChar(n)] else FormatNat(n / 10) + [DigitChar(n % 10)]
  }

  /** `strconv.FormatInt(n, 10)`: a leading '-' for negative values, then the digits. */
  function FormatInt(n: int): (s: string)
    ensures 0 < |s|
    ensures n < 0 <==> s[0] == '-'
  {
    if n < 0 then "-" + FormatNat(-(n as int)) else FormatNat(n)
  }

  /** The value of a string of decimal digits. */
  function DigitsValue(s: string): (n: nat)
    requires AllDigits(s)
    decreases |s|
  {
    if |s| == 0 then 0 else DigitsValue(s[..|s| - 1]) * 10 + DigitValue(s[|s| - 1])
  }

  /**
    `strconv.Atoi`: an optional '+' or '-', then one or more decimal digits,
    whose value must fit in a 64-bit int; anything else is a parse error (None).
   */
  function Atoi(s: string): (r: Option<int>)
    ensures r.Some? ==> InInt64(r.value)
    ensures |s| == 0 ==> r.None?
  {
    var signed := 0 < |s| && (s[0] == '-' || s[0] == '+');
    var digits := if signed then s[1..] else s;
    if |digits| == 0 || !AllDigits(digits) then None
    else
      var v: int := if signed && s[0] == '-' then -(DigitsValue(digits) as int) else DigitsValue(digits);
      if InInt64(v) then Some(v) else None
  }

  lemma {:induction false} DigitsValueOfFormatNat(n: nat)
    ensures DigitsValue(FormatNat(n)) == n
    decreases n
  {
    if n >= 10 {
      var s := FormatNat(n);
      var prefix := FormatNat(n / 10);
      assert s == prefix + [DigitChar(n % 10)];
      assert s[..|s| - 1] == prefix;
      DigitsValueOfFormatNat(n / 10);
    }
  }

  /** Every header value the middleware writes parses back to itself. */
  lemma AtoiFormatInt(n: Int64)
    ensures Atoi(FormatInt(n)) == Some(n)
  {
    if n < 0 {
      var m: nat := -(n as int);
      var digits := FormatNat(m);
      assert FormatInt(n)[1..] == digits;
      DigitsValueOfFormatNat(m);
    } else {
      DigitsValueOfFormatNat(n);
    }
  }
}
