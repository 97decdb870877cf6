/**
  Signed decimal text for status codes, in both directions: the parsing done
  by `OSStatus($0)` on the extractor's captured literal, and the text Swift's
  string interpolation writes for a code in the generated file.
 */
module Decimal {
  import opened StatusRecord
  import opened Characters

  function DigitValue(c: char): (v: nat)
    requires IsDigit(c)
    ensures v < 10
  {
    (c as int - '0' as int) as nat
  }

  function DigitChar(v: nat): (c: char)
    requires v < 10
    ensures IsDigit(c) && DigitValue(c) == v
  {
    ('0' as int + v) as char
  }

  /** A non-empty run of decimal digits (`OneOrMore(.digit)`). */
  predicate IsDigits(t: string) {
    |t| > 0 && AllOf(t, Digit)
  }

  /** An optional minus sign followed by one or more digits (`Optionally { "-" }; OneOrMore(.digit)`). */
  predicate IsCodeLiteral(t: string) {
    IsDigits(t) || (|t| > 0 && t[0] == '-' && IsDigits(t[1..]))
  }

  /** The value of a run of digits, most significant digit first. */
  function DigitsValue(t: string): nat
    requires AllOf(t, Digit)
    decreases |t|
  {
    if |t| == 0 then 0 else 10 * DigitsValue(t[..|t| - 1]) + DigitValue(t[|t| - 1])
  }

  /** `v` as an `OSStatus`, or `None` when it does not fit in 32 bits. */
  function Fit(v: int): (r: Option<OSStatus>)
    ensures r.Some? <==> MinOSStatus <= v <= MaxOSStatus
    ensures r.Some? ==> r.value == v
  {
    if MinOSStatus <= v <= MaxOSStatus then Some(v) else None
  }

  /**
    `OSStatus(text)`, i.e. Swift's `Int32.init?(_:)` in radix 10: an optional
    `+` or `-` followed by one or more digits; `None` for any other text and for
    a value outside the 32-bit range.
   */
  function ParseOSStatus(t: string): (r: Option<OSStatus>)
    ensures r.Some? ==> IsCodeLiteral(t) || (|t| > 0 && t[0] == '+' && IsDigits(t[1..]))
    ensures r.Some? ==> |t| > 0 && IsDigit(t[|t| - 1])
    ensures r.Some? && r.value < 0 ==> t[0] == '-'
    ensures IsDigits(t) ==> r == Fit(DigitsValue(t))
    ensures |t| > 0 && t[0] == '-' && IsDigits(t[1..]) ==> r == Fit(-(DigitsValue(t[1..]) as int))
    ensures |t| > 0 && t[0] == '+' && IsDigits(t[1..]) ==> r == Fit(DigitsValue(t[1..]))
  {
    if |t| > 0 && (t[0] == '-' || t[0] == '+') then
      if IsDigits(t[1..]) then
        var magnitude: int := DigitsValue(t[1..]);
        Fit(if t[0] == '-' then -magnitude else magnitude)
      else
        None
    else if IsDigits(t) then
      Fit(DigitsValue(t))
    else
      None
  }

  /** The digits of `n`, without leading zeros. */
  function NatDigits(n: nat): (t: string)
    ensures IsDigits(t)
    ensures n > 0 ==> t[0] != '0'
    decreases n
  {
    if n < 10 then [DigitChar(n)] else NatDigits(n / 10) + [DigitChar(n % 10)]
  }

  /** `"\(n)"`: signed decimal text, with a leading `-` exactly for negative numbers. */
  function DecimalText(n: int): (t: string)
    ensures IsCodeLiteral(t) && AllOf(t, CodeChar)
    ensures (t[0] == '-') == (n < 0)
  {
    if n < 0 then "-" + NatDigits(-n) else NatDigits(n)
  }

  lemma {:induction false} NatDigitsValue(n: nat)
    ensures DigitsValue(NatDigits(n)) == n
    decreases n
  {
    if n >= 10 {
      var t := NatDigits(n);
      NatDigitsValue(n / 10);
      assert t[..|t| - 1] == NatDigits(n / 10);
    }
  }

  /** The sign of a literal is kept: `-m` parses to the negation of `m`, subject to the 32-bit range. */
  lemma ParseKeepsSign(m: string)
    requires IsDigits(m)
    ensures ParseOSStatus(m) == Fit(DigitsValue(m))
    ensures ParseOSStatus("-" + m) == Fit(-(DigitsValue(m) as int))
  {
    assert ("-" + m)[1..] == m;
  }

  /** Every code is written in a form `OSStatus(_:)` reads back to the same code. */
  lemma DecimalRoundTrip(c: OSStatus)
    ensures ParseOSStatus(DecimalText(c)) == Some(c)
  {
    if c < 0 {
      NatDigitsValue(-(c as int));
      ParseKeepsSign(NatDigits(-(c as int)));
    } else {
      NatDigitsValue(c);
    }
  }

  /** Different numbers are written differently. */
  lemma DecimalInjective(a: int, b: int)
    ensures DecimalText(a) == DecimalText(b) <==> a == b
  {
    if DecimalText(a) == DecimalText(b) {
      if a < 0 {
        assert NatDigits(-a) == DecimalText(a)[1..] == DecimalText(b)[1..] == NatDigits(-b);
        NatDigitsValue(-a);
        NatDigitsValue(-b);
      } else {
        NatDigitsValue(a);
        NatDigitsValue(b);
      }
    }
  }

  /** Appending a digit multiplies the value so far by ten and adds the digit. */
  lemma DigitsValueSnoc(t: string, c: char, u: string)
    requires AllOf(t, Digit) && IsDigit(c) && u == t + [c]
    ensures AllOf(u, Digit) && DigitsValue(u) == 10 * DigitsValue(t) + DigitValue(c)
  {
    assert u[..|t|] == t;
  }

  /** The value of the nine leading digits shared by the 32-bit limits. */
  lemma LimitPrefixValue()
    ensures AllOf("214748364", Digit) && DigitsValue("214748364") == 214748364
  {
    DigitsValueSnoc("", '2', "2");
    DigitsValueSnoc("2", '1', "21");
    DigitsValueSnoc("21", '4', "214");
    DigitsValueSnoc("214", '7', "2147");
    DigitsValueSnoc("2147", '4', "21474");
    DigitsValueSnoc("21474", '8', "214748");
    DigitsValueSnoc("214748", '3', "2147483");
    DigitsValueSnoc("2147483", '6', "21474836");
    DigitsValueSnoc("21474836", '4', "214748364");
  }

  /** A negative literal keeps its sign: `-4` is -4, not 4. */
  lemma ParseMinusFour()
    ensures ParseOSStatus("-4") == Some(-4)
  {
    DigitsValueSnoc("", '4', "4");
    ParseKeepsSign("4");
  }

  /** The largest and smallest 32-bit values parse. */
  lemma ParseLimits()
    ensures ParseOSStatus("2147483647") == Some(MaxOSStatus)
    ensures ParseOSStatus("-2147483648") == Some(MinOSStatus)
  {
    LimitPrefixValue();
    DigitsValueSnoc("214748364", '7', "2147483647");
    DigitsValueSnoc("214748364", '8', "2147483648");
    ParseKeepsSign("2147483647");
    ParseKeepsSign("2147483648");
  }

  /** One beyond either end of the 32-bit range does not parse. */
  lemma ParseOverflow()
    ensures ParseOSStatus("2147483648") == None
    ensures ParseOSStatus("-2147483649") == None
  {
    LimitPrefixValue();
    DigitsValueSnoc("214748364", '8', "2147483648");
    DigitsValueSnoc("214748364", '9', "2147483649");
    ParseKeepsSign("2147483648");
    ParseKeepsSign("2147483649");
  }
}
