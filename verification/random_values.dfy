/** The "Random" button of the insert form: a plausible value, as text, for
    a column's type. The pseudo-random draws are parameters here, each with
    the range its Java source guarantees. */
module RandomValues {
  import opened Optional
  import opened Text
  import opened Numbers
  import opened SqlTypes
  import opened Coercion

  /** The draws one press of the button may use. */
  datatype Draws = Draws(
    belowHundred: int,      // random.nextInt(100)
    anyLong: int,           // random.nextLong()
    hundredths: int,        // random.nextDouble() * 100, rounded by "%.2f", in hundredths
    decimalSeparator: char, // the default locale's decimal separator
    coin: bool,             // random.nextBoolean()
    uuidHex: string,        // the 32 hexadecimal digits of UUID.randomUUID()
    yearOffset: int,        // random.nextInt(24)
    monthOffset: int,       // random.nextInt(12)
    dayOffset: int,         // random.nextInt(28)
    hour: int,              // random.nextInt(24)
    minute: int,            // random.nextInt(60)
    second: int)            // random.nextInt(60)

  predicate IsHexDigit(c: char) {
    '0' <= c <= '9' || 'a' <= c <= 'f'
  }

  /** The ranges the Java library promises for each draw. */
  predicate ValidDraws(d: Draws) {
    && 0 <= d.belowHundred < 100
    && IsLong(d.anyLong)
    && 0 <= d.hundredths <= 10000
    && |d.uuidHex| == 32 && (forall i :: 0 <= i < 32 ==> IsHexDigit(d.uuidHex[i]))
    && 0 <= d.yearOffset < 24 && 0 <= d.monthOffset < 12 && 0 <= d.dayOffset < 28
    && 0 <= d.hour < 24 && 0 <= d.minute < 60 && 0 <= d.second < 60
  }

  const TEXT_PREFIX: string := "Texto_"
  const FALLBACK_PREFIX: string := "Valor_"

  /** `UUID.toString()`: the 32 digits grouped 8-4-4-4-12 with dashes. */
  function UuidText(hex: string): (u: string)
    requires |hex| == 32
    ensures |u| == 36
  {
    hex[..8] + "-" + hex[8..12] + "-" + hex[12..16] + "-" + hex[16..20] + "-" + hex[20..]
  }

  /** Dropping the dash between a piece and dash-free digits keeps the
      digits as they are. */
  lemma RemoveDashBetween(x: string, y: string)
    requires '-' !in y
    ensures RemoveChar(x + "-" + y, '-') == RemoveChar(x, '-') + y
  {
    RemoveCharAppend(x, "-", '-');
    assert RemoveChar("-", '-') == "" by {
      assert "-"[0] == '-' && "-"[1..] == "";
    }
    assert RemoveChar(x + "-", '-') == RemoveChar(x, '-');
    RemoveCharAppend(x + "-", y, '-');
    RemoveCharAbsent(y, '-');
  }

  /** Dropping the dashes of the UUID text gives back its digits. */
  lemma UuidDashesRemoved(hex: string)
    requires |hex| == 32 && '-' !in hex
    ensures RemoveChar(UuidText(hex), '-') == hex
  {
    var u1 := hex[..8] + "-" + hex[8..12];
    RemoveCharAbsent(hex[..8], '-');
    RemoveDashBetween(hex[..8], hex[8..12]);
    assert hex[..8] + hex[8..12] == hex[..12];
    var u2 := u1 + "-" + hex[12..16];
    RemoveDashBetween(u1, hex[12..16]);
    assert hex[..12] + hex[12..16] == hex[..16];
    var u3 := u2 + "-" + hex[16..20];
    RemoveDashBetween(u2, hex[16..20]);
    assert hex[..16] + hex[16..20] == hex[..20];
    var u4 := u3 + "-" + hex[20..];
    RemoveDashBetween(u3, hex[20..]);
    assert hex[..20] + hex[20..] == hex;
    assert u4 == UuidText(hex);
  }

  /** The character family: "Texto_" and six UUID digits, cut to the
      declared length when that is positive. */
  function CharactersValue(length: int, hex: string): (r: string)
    requires |hex| == 32 && '-' !in hex
    ensures length > 0 ==> |r| <= length
  {
    UuidDashesRemoved(hex);
    var texto := TEXT_PREFIX + RemoveChar(UuidText(hex), '-')[..6];
    if length > 0 then texto[..if |texto| < length then |texto| else length] else texto
  }

  /** `String.format("%.2f", x)` for a non-negative x already rounded to
      hundredths, with the locale's decimal separator. */
  function DecimalText(hundredths: nat, separator: char): string
  {
    NatToString(hundredths / 100) + [separator] + PadLeft(hundredths % 100, 2)
  }

  /** `String.format("%04d-%02d-%02d", year, month, day)`. */
  function DateText(year: nat, month: nat, day: nat): string
  {
    PadLeft(year, 4) + "-" + PadLeft(month, 2) + "-" + PadLeft(day, 2)
  }

  /** `String.format("%02d:%02d:%02d", hour, minute, second)`. */
  function TimeText(hour: nat, minute: nat, second: nat): string
  {
    PadLeft(hour, 2) + ":" + PadLeft(minute, 2) + ":" + PadLeft(second, 2)
  }

  /** The value the button puts in the column's field. */
  function Generate(col: ColumnInfo, d: Draws): (r: string)
    requires ValidDraws(d)
    ensures GenerateRuleOf(col.typeCode) == Characters && col.length > 0 ==> |r| <= col.length
  {
    match GenerateRuleOf(col.typeCode)
    case SmallNumber => ValueOf(d.belowHundred)
    case LongNumber => ValueOf(JavaRem(d.anyLong, 10000))
    case DecimalNumber => DecimalText(d.hundredths, d.decimalSeparator)
    case Flag => if d.coin then "1" else "0"
    case Characters => CharactersValue(col.length, d.uuidHex)
    case Date => DateText(2000 + d.yearOffset, 1 + d.monthOffset, 1 + d.dayOffset)
    case Time => TimeText(d.hour, d.minute, d.second)
    case Timestamp =>
      DateText(2000 + d.yearOffset, 1 + d.monthOffset, 1 + d.dayOffset) + " "
        + TimeText(d.hour, d.minute, d.second)
    case Fallback => FALLBACK_PREFIX + UuidText(d.uuidHex)[..4]
  }

  // ---------------------------------------------------------------------
  // What the generated text looks like
  // ---------------------------------------------------------------------

  /** `YYYY-MM-DD` with a year in 2000..2023, a month in 1..12 and a day in
      1..28. */
  predicate DateShaped(s: string) {
    && |s| == 10 && s[4] == '-' && s[7] == '-'
    && AllDigits(s[..4]) && AllDigits(s[5..7]) && AllDigits(s[8..])
    && 2000 <= DigitsValue(s[..4]) <= 2023
    && 1 <= DigitsValue(s[5..7]) <= 12
    && 1 <= DigitsValue(s[8..]) <= 28
  }

  /** `HH:MM:SS` on a 24-hour clock. */
  predicate TimeShaped(s: string) {
    && |s| == 8 && s[2] == ':' && s[5] == ':'
    && AllDigits(s[..2]) && AllDigits(s[3..5]) && AllDigits(s[6..])
    && DigitsValue(s[..2]) < 24
    && DigitsValue(s[3..5]) < 60
    && DigitsValue(s[6..]) < 60
  }

  lemma DateTextShaped(year: nat, month: nat, day: nat)
    requires 2000 <= year <= 2023 && 1 <= month <= 12 && 1 <= day <= 28
    ensures DateShaped(DateText(year, month, day))
  {
    assert Pow10(2) == 100;
    assert Pow10(4) == 10000;
    PadLeftExact(year, 4);
    PadLeftExact(month, 2);
    PadLeftExact(day, 2);
    var s := DateText(year, month, day);
    assert s[..4] == PadLeft(year, 4);
    assert s[5..7] == PadLeft(month, 2);
    assert s[8..] == PadLeft(day, 2);
  }

  lemma TimeTextShaped(hour: nat, minute: nat, second: nat)
    requires hour < 24 && minute < 60 && second < 60
    ensures TimeShaped(TimeText(hour, minute, second))
  {
    assert Pow10(2) == 100;
    PadLeftExact(hour, 2);
    PadLeftExact(minute, 2);
    PadLeftExact(second, 2);
    var s := TimeText(hour, minute, second);
    assert s[..2] == PadLeft(hour, 2);
    assert s[3..5] == PadLeft(minute, 2);
    assert s[6..] == PadLeft(second, 2);
  }

  /** The integer family yields a number in 0..99 that `Integer.parseInt`
      reads back. */
  lemma SmallNumberRange(col: ColumnInfo, d: Draws)
    requires ValidDraws(d) && GenerateRuleOf(col.typeCode) == SmallNumber
    ensures ParseInt(Generate(col, d)) == Some(d.belowHundred)
    ensures 0 <= ParseInt(Generate(col, d)).value < 100
  {
    ParseValueOf(d.belowHundred);
  }

  /** BIGINT yields `nextLong() % 10000`: a number in -9999..9999. */
  lemma LongNumberRange(col: ColumnInfo, d: Draws)
    requires ValidDraws(d) && GenerateRuleOf(col.typeCode) == LongNumber
    ensures ParseLong(Generate(col, d)).Some?
    ensures -9999 <= ParseLong(Generate(col, d)).value <= 9999
    ensures d.anyLong >= 0 ==> ParseLong(Generate(col, d)).value >= 0
  {
    ParseValueOf(JavaRem(d.anyLong, 10000));
  }

  /** The character family is "Texto_" and six UUID digits, twelve
      characters, cut to the declared length when that is positive: it never
      exceeds a positive declared length and is never empty. */
  lemma CharactersFit(col: ColumnInfo, d: Draws)
    requires ValidDraws(d) && GenerateRuleOf(col.typeCode) == Characters
    ensures var r := Generate(col, d);
            && |r| == (if 0 < col.length < 12 then col.length else 12)
            && r == (TEXT_PREFIX + d.uuidHex[..6])[..|r|]
  {
    assert '-' !in d.uuidHex by {
      assert forall i :: 0 <= i < |d.uuidHex| ==> d.uuidHex[i] != '-';
    }
    UuidDashesRemoved(d.uuidHex);
  }

  /** DATE yields `YYYY-MM-DD` within 2000-01-01 .. 2023-12-28. */
  lemma DateInRange(col: ColumnInfo, d: Draws)
    requires ValidDraws(d) && GenerateRuleOf(col.typeCode) == Date
    ensures DateShaped(Generate(col, d))
  {
    var year, month, day := 2000 + d.yearOffset, 1 + d.monthOffset, 1 + d.dayOffset;
    DateTextShaped(year, month, day);
    assert Generate(col, d) == DateText(year, month, day);
  }

  /** TIME yields `HH:MM:SS`. */
  lemma TimeInRange(col: ColumnInfo, d: Draws)
    requires ValidDraws(d) && GenerateRuleOf(col.typeCode) == Time
    ensures TimeShaped(Generate(col, d))
  {
    TimeTextShaped(d.hour, d.minute, d.second);
  }

  /** TIMESTAMP yields a date, a blank and a time. */
  lemma TimestampInRange(col: ColumnInfo, d: Draws)
    requires ValidDraws(d) && GenerateRuleOf(col.typeCode) == Timestamp
    ensures var r := Generate(col, d);
            |r| == 19 && DateShaped(r[..10]) && r[10] == ' ' && TimeShaped(r[11..])
  {
    var year, month, day := 2000 + d.yearOffset, 1 + d.monthOffset, 1 + d.dayOffset;
    var date := DateText(year, month, day);
    var time := TimeText(d.hour, d.minute, d.second);
    DateTextShaped(year, month, day);
    TimeTextShaped(d.hour, d.minute, d.second);
    StampShaped(date, time);
    GenerateStamp(col, d);
  }

  lemma GenerateStamp(col: ColumnInfo, d: Draws)
    requires ValidDraws(d) && GenerateRuleOf(col.typeCode) == Timestamp
    ensures Generate(col, d)
         == DateText(2000 + d.yearOffset, 1 + d.monthOffset, 1 + d.dayOffset) + " " + TimeText(d.hour, d.minute, d.second)
  {
  }

  lemma StampShaped(date: string, time: string)
    requires DateShaped(date) && TimeShaped(time)
    ensures var r := date + " " + time;
            |r| == 19 && DateShaped(r[..10]) && r[10] == ' ' && TimeShaped(r[11..])
  {
    StampPieces(date, time);
  }

  /** A ten-character date and a time joined by a blank sit at fixed
      places in the joined text. */
  lemma StampPieces(date: string, time: string)
    requires |date| == 10
    ensures var r := date + " " + time;
            |r| == 11 + |time| && r[..10] == date && r[10] == ' ' && r[11..] == time
  {
    var r := date + " " + time;
    assert r[..10] == date;
    assert r[11..] == time;
  }

  /** Any other type yields "Valor_" and the first four UUID digits. */
  lemma FallbackShape(col: ColumnInfo, d: Draws)
    requires ValidDraws(d) && GenerateRuleOf(col.typeCode) == Fallback
    ensures Generate(col, d) == FALLBACK_PREFIX + d.uuidHex[..4]
  {
  }

  /** With a comma or a period as the locale's separator, the comma-to-
      period rewrite of the insert turns the generated decimal into the
      period-separated text. */
  lemma DecimalSeparatorNormalized(hundredths: nat, separator: char)
    requires separator == ',' || separator == '.'
    ensures NormalizeDecimal(DecimalText(hundredths, separator)) == DecimalText(hundredths, '.')
  {
    var whole := NatToString(hundredths / 100);
    var cents := PadLeft(hundredths % 100, 2);
    var s := DecimalText(hundredths, separator);
    var t := DecimalText(hundredths, '.');
    var n := NormalizeDecimal(s);
    assert |n| == |t|;
    forall i | 0 <= i < |t|
      ensures n[i] == t[i]
    {
      if i < |whole| {
        assert s[i] == whole[i] && IsDigit(whole[i]);
      } else if i > |whole| {
        assert s[i] == cents[i - |whole| - 1] && IsDigit(cents[i - |whole| - 1]);
      }
    }
  }

  /** A generated value is always accepted by the insert when bound to its
      own column: numbers and flags bind to the drawn value, characters are
      never cut, and a decimal binds as its period-separated text does. */
  lemma GeneratedValueBinds(col: ColumnInfo, d: Draws, parseDouble: string -> Option<real>)
    requires ValidDraws(d)
    ensures GenerateRuleOf(col.typeCode) != DecimalNumber ==>
              CoerceCell(col, Generate(col, d), parseDouble).Accepted?
    ensures GenerateRuleOf(col.typeCode) == SmallNumber ==>
              CoerceCell(col, Generate(col, d), parseDouble) == Accepted(IntValue(d.belowHundred), false)
    ensures GenerateRuleOf(col.typeCode) == LongNumber ==>
              CoerceCell(col, Generate(col, d), parseDouble)
              == Accepted(LongValue(JavaRem(d.anyLong, 10000)), false)
    ensures GenerateRuleOf(col.typeCode) == Flag ==>
              CoerceCell(col, Generate(col, d), parseDouble) == Accepted(BoolValue(d.coin), false)
    ensures GenerateRuleOf(col.typeCode) == Characters ==>
              CoerceCell(col, Generate(col, d), parseDouble) == Accepted(StringValue(Generate(col, d)), false)
    ensures GenerateRuleOf(col.typeCode) == DecimalNumber
            && (d.decimalSeparator == ',' || d.decimalSeparator == '.') ==>
              CoerceCell(col, Generate(col, d), parseDouble)
              == CoerceCell(col, DecimalText(d.hundredths, '.'), parseDouble)
  {
    RulesAgree(col.typeCode);
    match GenerateRuleOf(col.typeCode)
    case SmallNumber =>
      IntegerCellRoundTrip(col, d.belowHundred, parseDouble);
    case LongNumber =>
      LongCellRoundTrip(col, JavaRem(d.anyLong, 10000), parseDouble);
    case DecimalNumber =>
      if d.decimalSeparator == ',' || d.decimalSeparator == '.' {
        DecimalSeparatorNormalized(d.hundredths, d.decimalSeparator);
        DecimalCommaInsensitive(col, Generate(col, d), parseDouble);
        DecimalCommaInsensitive(col, DecimalText(d.hundredths, '.'), parseDouble);
        NormalizeIdempotent(DecimalText(d.hundredths, '.'));
      }
    case Flag =>
    case Characters =>
      CharactersFit(col, d);
    case Date =>
    case Time =>
    case Timestamp =>
    case Fallback =>
  }
}
