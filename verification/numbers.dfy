/** The Java number conversions the program relies on: `Integer.parseInt`,
    `Long.parseLong`, `String.valueOf` of an integer, and the `%` operator
    on `long`, with Java's fixed widths written out. */
module Numbers {
  import opened Optional
  import opened Text

  const MIN_INT: int := -0x8000_0000
  const MAX_INT: int := 0x7fff_ffff
  const MIN_LONG: int := -0x8000_0000_0000_0000
  const MAX_LONG: int := 0x7fff_ffff_ffff_ffff

  /** Fits in a Java `int` (32-bit two's complement). */
  predicate IsInt(n: int) {
    MIN_INT <= n <= MAX_INT
  }

  /** Fits in a Java `long` (64-bit two's complement). */
  predicate IsLong(n: int) {
    MIN_LONG <= n <= MAX_LONG
  }

  predicate IsSign(c: char) {
    c == '-' || c == '+'
  }

  /** The syntax both `Integer.parseInt` and `Long.parseLong` accept in
      radix 10: an optional sign followed by at least one digit, with no
      spaces, separators or exponent anywhere. */
  predicate WellFormedInteger(s: string) {
    && |s| >= 1
    && AllDigits(s[1..])
    && (IsDigit(s[0]) || (IsSign(s[0]) && |s| >= 2))
  }

  /** The mathematical value of a decimal integer literal, before any
      width check; `None` when the text is not one. */
  function ParseDecimal(s: string): (r: Option<int>)
    ensures r.Some? <==> WellFormedInteger(s)
    ensures r.Some? && s[0] == '-' ==> r.value <= 0
    ensures r.Some? && s[0] != '-' ==> r.value >= 0
  {
    if |s| == 0 then None
    else if IsSign(s[0]) then
      if |s| == 1 || !AllDigits(s[1..]) then None
      else if s[0] == '-' then Some(0 - DigitsValue(s[1..]) as int)
      else Some(DigitsValue(s[1..]))
    else if AllDigits(s) then Some(DigitsValue(s))
    else None
  }

  /** `Integer.parseInt(s)`: `None` stands for the `NumberFormatException`
      thrown on bad syntax or on a value outside the `int` range. */
  function ParseInt(s: string): (r: Option<int>)
    ensures r.Some? ==> IsInt(r.value) && ParseDecimal(s) == r
    ensures r.None? <==> !WellFormedInteger(s) || !IsInt(ParseDecimal(s).value)
  {
    match ParseDecimal(s)
    case Some(n) => if IsInt(n) then Some(n) else None
    case None => None
  }

  /** `Long.parseLong(s)`: as `ParseInt`, with the `long` range. */
  function ParseLong(s: string): (r: Option<int>)
    ensures r.Some? ==> IsLong(r.value) && ParseDecimal(s) == r
    ensures r.None? <==> !WellFormedInteger(s) || !IsLong(ParseDecimal(s).value)
  {
    match ParseDecimal(s)
    case Some(n) => if IsLong(n) then Some(n) else None
    case None => None
  }

  /** `String.valueOf` of an `int` or `long`: a minus sign for negative
      values, then the digits without leading zeros. */
  function ValueOf(n: int): (s: string)
    ensures WellFormedInteger(s)
    ensures s[0] != '+'
  {
    if n < 0 then "-" + NatToString(-n) else NatToString(n)
  }

  /** Parsing what `String.valueOf` wrote gives the number back. */
  lemma ParseValueOf(n: int)
    ensures ParseDecimal(ValueOf(n)) == Some(n)
  {
    var s := ValueOf(n);
    if n < 0 {
      var t := NatToString(-n);
      NatToStringRoundTrip(-n);
      assert s[0] == '-' && s[1..] == t;
      assert ParseDecimal(s) == Some(0 - DigitsValue(t) as int);
    } else {
      NatToStringRoundTrip(n);
      assert IsDigit(s[0]) && !IsSign(s[0]);
      assert ParseDecimal(s) == Some(DigitsValue(s));
    }
  }

  /** Java's `a % b` for a positive divisor: the remainder of division
      truncated toward zero, so it takes the sign of `a`. */
  function JavaRem(a: int, b: int): (r: int)
    requires b > 0
    ensures -b < r < b
    ensures a >= 0 ==> r >= 0
    ensures a <= 0 ==> r <= 0
  {
    if a >= 0 then a % b else -((-a) % b)
  }
}
