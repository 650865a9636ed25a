/** JDBC type codes (the constants of `java.sql.Types`), the column
    descriptor read from the catalog, and the program's three dispatches on
    a type code: how a typed-in value is bound, how a random value is
    generated, and the type name shown in a format error. */
module SqlTypes {

  // The codes of `java.sql.Types` that the program names.
  const BIT: int := -7
  const TINYINT: int := -6
  const SMALLINT: int := 5
  const INTEGER: int := 4
  const BIGINT: int := -5
  const FLOAT: int := 6
  const REAL: int := 7
  const DOUBLE: int := 8
  const NUMERIC: int := 2
  const DECIMAL: int := 3
  const CHAR: int := 1
  const VARCHAR: int := 12
  const LONGVARCHAR: int := -1
  const DATE: int := 91
  const TIME: int := 92
  const TIMESTAMP: int := 93
  const BOOLEAN: int := 16
  const NCHAR: int := -15
  const NVARCHAR: int := -9
  const LONGNVARCHAR: int := -16
  const TIME_WITH_TIMEZONE: int := 2013
  const TIMESTAMP_WITH_TIMEZONE: int := 2014

  /** One column as the catalog reports it: `COLUMN_NAME`, `DATA_TYPE`
      and `COLUMN_SIZE`. */
  datatype ColumnInfo = ColumnInfo(name: string, typeCode: int, length: int)

  function Names(cols: seq<ColumnInfo>): (names: seq<string>)
    ensures |names| == |cols|
    ensures forall i :: 0 <= i < |cols| ==> names[i] == cols[i].name
  {
    seq(|cols|, i requires 0 <= i < |cols| => cols[i].name)
  }

  /** How the insert binds a non-empty value of a column. */
  datatype BindRule =
    | IntRule      // Integer.parseInt, setInt
    | LongRule     // Long.parseLong, setLong
    | DecimalRule  // comma to period, Double.parseDouble, setDouble
    | BoolRule     // Boolean.parseBoolean or "1", setBoolean
    | TextRule     // truncation to the declared length, setString

  function BindRuleOf(typeCode: int): BindRule
  {
    if typeCode in {INTEGER, SMALLINT, TINYINT} then IntRule
    else if typeCode == BIGINT then LongRule
    else if typeCode in {DECIMAL, NUMERIC, FLOAT, DOUBLE} then DecimalRule
    else if typeCode in {BIT, BOOLEAN} then BoolRule
    else TextRule
  }

  /** The bind rules whose parse can reject a value. */
  predicate CanReject(rule: BindRule) {
    rule == IntRule || rule == LongRule || rule == DecimalRule
  }

  /** Which kind of random value the "Random" button produces. */
  datatype GenerateRule =
    | SmallNumber | LongNumber | DecimalNumber | Flag
    | Characters | Date | Time | Timestamp | Fallback

  function GenerateRuleOf(typeCode: int): GenerateRule
  {
    if typeCode in {INTEGER, SMALLINT, TINYINT} then SmallNumber
    else if typeCode == BIGINT then LongNumber
    else if typeCode in {DECIMAL, NUMERIC, FLOAT, DOUBLE} then DecimalNumber
    else if typeCode in {BIT, BOOLEAN} then Flag
    else if typeCode in {CHAR, VARCHAR, LONGVARCHAR, NCHAR, NVARCHAR, LONGNVARCHAR} then Characters
    else if typeCode == DATE then Date
    else if typeCode in {TIME, TIME_WITH_TIMEZONE} then Time
    else if typeCode in {TIMESTAMP, TIMESTAMP_WITH_TIMEZONE} then Timestamp
    else Fallback
  }

  /** The numeric and boolean families are the same for binding and for
      generating; every other generator kind binds as text. */
  lemma RulesAgree(typeCode: int)
    ensures BindRuleOf(typeCode) == IntRule <==> GenerateRuleOf(typeCode) == SmallNumber
    ensures BindRuleOf(typeCode) == LongRule <==> GenerateRuleOf(typeCode) == LongNumber
    ensures BindRuleOf(typeCode) == DecimalRule <==> GenerateRuleOf(typeCode) == DecimalNumber
    ensures BindRuleOf(typeCode) == BoolRule <==> GenerateRuleOf(typeCode) == Flag
  {
  }

  /** REAL is in none of the numeric cases: it is bound as text and
      generated by the fallback branch. */
  lemma RealIsText()
    ensures BindRuleOf(REAL) == TextRule
    ensures GenerateRuleOf(REAL) == Fallback
  {
  }

  const UNKNOWN_TYPE_NAME: string := "DESCONHECIDO"

  /** The codes that have a name of their own in format-error messages. */
  const NamedTypes: set<int> :=
    {INTEGER, SMALLINT, TINYINT, BIGINT, DECIMAL, NUMERIC, FLOAT, DOUBLE, BIT, BOOLEAN,
     CHAR, VARCHAR, LONGVARCHAR, NCHAR, NVARCHAR, LONGNVARCHAR, DATE, TIME, TIMESTAMP}

  /** The type name used in the format-error message. */
  function TypeName(typeCode: int): (name: string)
    ensures name == UNKNOWN_TYPE_NAME <==> typeCode !in NamedTypes
  {
    if typeCode == INTEGER then "INTEIRO"
    else if typeCode == SMALLINT then "PEQUENO INTEIRO"
    else if typeCode == TINYINT then "TINY INT"
    else if typeCode == BIGINT then "LONGO INTEIRO"
    else if typeCode == DECIMAL then "DECIMAL"
    else if typeCode == NUMERIC then "NUMÉRICO"
    else if typeCode == FLOAT then "FLOAT"
    else if typeCode == DOUBLE then "DOUBLE"
    else if typeCode == BIT then "BIT/BOOLEANO"
    else if typeCode == BOOLEAN then "BOOLEANO"
    else if typeCode == CHAR then "CARACTERE"
    else if typeCode == VARCHAR then "TEXTO"
    else if typeCode == LONGVARCHAR then "TEXTO LONGO"
    else if typeCode == NCHAR then "CARACTERE UNICODE"
    else if typeCode == NVARCHAR then "TEXTO UNICODE"
    else if typeCode == LONGNVARCHAR then "TEXTO LONGO UNICODE"
    else if typeCode == DATE then "DATA"
    else if typeCode == TIME then "HORA"
    else if typeCode == TIMESTAMP then "DATA/HORA"
    else UNKNOWN_TYPE_NAME
  }

  /** Different named codes get different names, so a message identifies
      the expected type exactly. */
  lemma TypeNamesDistinct(a: int, b: int)
    requires a in NamedTypes && b in NamedTypes && a != b
    ensures TypeName(a) != TypeName(b)
  {
  }

  /** Every code whose parse can reject a value has a name of its own, so a
      format error never says "DESCONHECIDO". */
  lemma RejectingTypesAreNamed(typeCode: int)
    requires CanReject(BindRuleOf(typeCode))
    ensures TypeName(typeCode) != UNKNOWN_TYPE_NAME
  {
  }
}
