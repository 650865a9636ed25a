/** The manual insert: each typed-in text is turned into a bound value by
    the column's JDBC type; the first malformed number abandons the whole
    insert before the statement is executed; over-long text is cut to the
    declared length with a warning. */
module Coercion {
  import opened Optional
  import opened Text
  import opened Numbers
  import opened SqlTypes
  import opened InsertStatement

  /** A value handed to the prepared statement. */
  datatype BoundValue =
    | SqlNull(typeCode: int)  // setNull with the column's own type code
    | IntValue(i: int)        // setInt
    | LongValue(l: int)       // setLong
    | DoubleValue(d: real)    // setDouble
    | BoolValue(b: bool)      // setBoolean
    | StringValue(s: string)  // setString

  /** The fate of one column's text. */
  datatype Cell = Accepted(value: BoundValue, truncated: bool) | Malformed

  /** The non-fatal "value truncated" notice, shown while binding. */
  datatype Warning = Truncated(column: nat, name: string, length: int)

  /** The text of the format-error notice: the column, the expected type
      name and the value as typed. */
  datatype FormatError = FormatError(columnName: string, expected: string, given: string)

  // ---------------------------------------------------------------------
  // One column
  // ---------------------------------------------------------------------

  /** The locale fix applied before the floating-point parse: every comma
      becomes a period. */
  function NormalizeDecimal(text: string): (r: string)
    ensures |r| == |text| && ',' !in r
    ensures forall i :: 0 <= i < |text| && text[i] != ',' ==> r[i] == text[i]
    ensures forall i :: 0 <= i < |text| && text[i] == ',' ==> r[i] == '.'
  {
    ReplaceChar(text, ',', '.')
  }

  /** `Boolean.parseBoolean`: the text is "true" ignoring case. Comparing
      ASCII lower case is exact here: no other character folds to one of
      the letters of "true". */
  predicate IsTrueText(text: string) {
    |text| == 4 && forall i :: 0 <= i < 4 ==> LowerAscii(text[i]) == "true"[i]
  }

  /** The text must be cut: a text-bound column with a positive declared
      length, and a longer text. */
  predicate Truncates(col: ColumnInfo, text: string) {
    && text != ""
    && BindRuleOf(col.typeCode) == TextRule
    && col.length > 0
    && |text| > col.length
  }

  /** Binds one column's text. `parseDouble` is `Double.parseDouble`,
      with `None` for its `NumberFormatException`. */
  function CoerceCell(col: ColumnInfo, text: string, parseDouble: string -> Option<real>): (r: Cell)
    ensures text == "" ==> r == Accepted(SqlNull(col.typeCode), false)
    ensures r.Malformed? ==> text != "" && CanReject(BindRuleOf(col.typeCode))
    ensures r.Accepted? ==> (r.truncated <==> Truncates(col, text))
    ensures Truncates(col, text) ==>
              r.Accepted? && r.value.StringValue? && |r.value.s| == col.length
              && r.value.s == text[..col.length]
    ensures text != "" && BindRuleOf(col.typeCode) == TextRule && !Truncates(col, text) ==>
              r == Accepted(StringValue(text), false)
    ensures text != "" && BindRuleOf(col.typeCode) == DecimalRule ==>
              (r.Accepted? <==> parseDouble(NormalizeDecimal(text)).Some?)
              && (r.Accepted? ==> r.value == DoubleValue(parseDouble(NormalizeDecimal(text)).value))
  {
    if text == "" then Accepted(SqlNull(col.typeCode), false)
    else
      match BindRuleOf(col.typeCode)
      case IntRule =>
        (match ParseInt(text)
         case Some(n) => Accepted(IntValue(n), false)
         case None => Malformed)
      case LongRule =>
        (match ParseLong(text)
         case Some(n) => Accepted(LongValue(n), false)
         case None => Malformed)
      case DecimalRule =>
        (match parseDouble(NormalizeDecimal(text))
         case Some(d) => Accepted(DoubleValue(d), false)
         case None => Malformed)
      case BoolRule =>
        Accepted(BoolValue(IsTrueText(text) || text == "1"), false)
      case TextRule =>
        if col.length > 0 && |text| > col.length then
          Accepted(StringValue(text[..col.length]), true)
        else
          Accepted(StringValue(text), false)
  }

  /** INTEGER, SMALLINT and TINYINT share the 32-bit parse: a non-empty
      text is accepted exactly when it is a decimal integer within the
      `int` range, whatever the column's own width. */
  lemma IntegerFamilyCell(col: ColumnInfo, text: string, parseDouble: string -> Option<real>)
    requires col.typeCode in {INTEGER, SMALLINT, TINYINT} && text != ""
    ensures CoerceCell(col, text, parseDouble).Accepted?
        <==> WellFormedInteger(text) && IsInt(ParseDecimal(text).value)
    ensures CoerceCell(col, text, parseDouble).Accepted? ==>
              CoerceCell(col, text, parseDouble) == Accepted(IntValue(ParseDecimal(text).value), false)
  {
  }

  /** BIGINT uses the 64-bit parse: a non-empty text is accepted exactly
      when it is a decimal integer, with an optional sign and any leading
      zeros, within the `long` range; a value beyond it is a format error. */
  lemma LongFamilyCell(col: ColumnInfo, text: string, parseDouble: string -> Option<real>)
    requires col.typeCode == BIGINT && text != ""
    ensures CoerceCell(col, text, parseDouble).Accepted?
        <==> WellFormedInteger(text) && IsLong(ParseDecimal(text).value)
    ensures CoerceCell(col, text, parseDouble).Accepted? ==>
              CoerceCell(col, text, parseDouble) == Accepted(LongValue(ParseDecimal(text).value), false)
  {
  }

  /** A number beyond the `long` range, such as one past the largest
      `long`, is a format error in a BIGINT column. */
  lemma LongOverflowRejected(col: ColumnInfo, n: int, parseDouble: string -> Option<real>)
    requires col.typeCode == BIGINT && !IsLong(n)
    ensures CoerceCell(col, ValueOf(n), parseDouble) == Malformed
  {
    ParseValueOf(n);
  }

  /** Forms other than the shortest one also bind: a plus sign, leading
      zeros and a negative zero. */
  lemma LongFamilyLenientForms(col: ColumnInfo, parseDouble: string -> Option<real>)
    requires col.typeCode == BIGINT
    ensures CoerceCell(col, "+5", parseDouble) == Accepted(LongValue(5), false)
    ensures CoerceCell(col, "007", parseDouble) == Accepted(LongValue(7), false)
    ensures CoerceCell(col, "-0", parseDouble) == Accepted(LongValue(0), false)
  {
    LongFamilyCell(col, "+5", parseDouble);
    LongFamilyCell(col, "007", parseDouble);
    assert "007"[..2] == "00" && "00"[..1] == "0";
    assert DigitsValue("007") == 7;
    LongFamilyCell(col, "-0", parseDouble);
  }

  /** Every `int` written in decimal binds back to itself in the integer
      family. */
  lemma IntegerCellRoundTrip(col: ColumnInfo, n: int, parseDouble: string -> Option<real>)
    requires BindRuleOf(col.typeCode) == IntRule && IsInt(n)
    ensures CoerceCell(col, ValueOf(n), parseDouble) == Accepted(IntValue(n), false)
  {
    ParseValueOf(n);
  }

  /** Every `long` written in decimal binds back to itself in a BIGINT
      column. */
  lemma LongCellRoundTrip(col: ColumnInfo, n: int, parseDouble: string -> Option<real>)
    requires col.typeCode == BIGINT && IsLong(n)
    ensures CoerceCell(col, ValueOf(n), parseDouble) == Accepted(LongValue(n), false)
  {
    ParseValueOf(n);
  }

  /** Text that is not an optionally signed run of digits is a format
      error in the integer and BIGINT families. */
  lemma NonNumericRejected(col: ColumnInfo, text: string, parseDouble: string -> Option<real>)
    requires BindRuleOf(col.typeCode) in {IntRule, LongRule}
    requires text != "" && !WellFormedInteger(text)
    ensures CoerceCell(col, text, parseDouble) == Malformed
  {
  }

  /** A number beyond the `int` range is a format error in the integer
      family, even where the column is wider in the database, and is bound
      as is in a BIGINT column when it fits a `long`. */
  lemma IntOverflowRejected(intCol: ColumnInfo, longCol: ColumnInfo, n: int,
                            parseDouble: string -> Option<real>)
    requires BindRuleOf(intCol.typeCode) == IntRule && longCol.typeCode == BIGINT
    requires IsLong(n) && !IsInt(n)
    ensures CoerceCell(intCol, ValueOf(n), parseDouble) == Malformed
    ensures CoerceCell(longCol, ValueOf(n), parseDouble) == Accepted(LongValue(n), false)
  {
    ParseValueOf(n);
  }

  /** Normalising twice is normalising once. */
  lemma NormalizeIdempotent(text: string)
    ensures NormalizeDecimal(NormalizeDecimal(text)) == NormalizeDecimal(text)
  {
  }

  /** In the decimal family the separator does not matter: a text binds
      exactly as its comma-to-period version does. */
  lemma DecimalCommaInsensitive(col: ColumnInfo, text: string, parseDouble: string -> Option<real>)
    requires BindRuleOf(col.typeCode) == DecimalRule
    ensures CoerceCell(col, text, parseDouble) == CoerceCell(col, NormalizeDecimal(text), parseDouble)
  {
    NormalizeIdempotent(text);
  }

  /** "12,5" binds as "12.5" does. */
  lemma DecimalCommaExample(col: ColumnInfo, parseDouble: string -> Option<real>)
    requires BindRuleOf(col.typeCode) == DecimalRule
    ensures CoerceCell(col, "12,5", parseDouble) == CoerceCell(col, "12.5", parseDouble)
  {
    DecimalCommaInsensitive(col, "12,5", parseDouble);
    assert NormalizeDecimal("12,5") == "12.5";
  }

  /** BIT and BOOLEAN never reject: a non-empty text binds true exactly
      when it is "1" or the four letters t, r, u, e in either case. */
  lemma BooleanCell(col: ColumnInfo, text: string, parseDouble: string -> Option<real>)
    requires BindRuleOf(col.typeCode) == BoolRule && text != ""
    ensures CoerceCell(col, text, parseDouble).Accepted?
    ensures CoerceCell(col, text, parseDouble).value.BoolValue?
    ensures CoerceCell(col, text, parseDouble).value.b
        <==> text == "1"
             || (|text| == 4 && text[0] in "tT" && text[1] in "rR" && text[2] in "uU" && text[3] in "eE")
  {
    var cased := |text| == 4 && text[0] in "tT" && text[1] in "rR" && text[2] in "uU" && text[3] in "eE";
    if |text| == 4 {
      assert IsTrueText(text) <==> cased by {
        assert "true"[0] == 't' && "true"[1] == 'r' && "true"[2] == 'u' && "true"[3] == 'e';
      }
    }
  }

  // ---------------------------------------------------------------------
  // All columns
  // ---------------------------------------------------------------------

  /** Result of binding every column in order. */
  datatype Binding =
    | AllBound(values: seq<BoundValue>, warnings: seq<Warning>)
    | FirstMalformed(column: nat, warnings: seq<Warning>)

  function WarningFor(col: ColumnInfo, column: nat): Warning
  {
    Truncated(column, col.name, col.length)
  }

  function WarnedColumns(ws: seq<Warning>): set<nat>
  {
    set k | 0 <= k < |ws| :: ws[k].column
  }

  /** `ws` holds one warning per truncated column below `limit`, in column
      order, and nothing else. */
  predicate WarnsExactly(ws: seq<Warning>, cols: seq<ColumnInfo>, texts: seq<string>, limit: nat)
    requires |cols| == |texts| && limit <= |cols|
  {
    && (forall k :: 0 <= k < |ws| ==>
          ws[k].column < limit && ws[k] == WarningFor(cols[ws[k].column], ws[k].column)
          && Truncates(cols[ws[k].column], texts[ws[k].column]))
    && (forall k, l :: 0 <= k < l < |ws| ==> ws[k].column < ws[l].column)
    && (forall i :: 0 <= i < limit && Truncates(cols[i], texts[i]) ==> i in WarnedColumns(ws))
  }

  /** The binding loop as a fold over the columns in order: it stops at
      the first malformed column and keeps the warnings shown before it.
      What the result says about the columns is stated by `CoerceAllBinds`
      and `CoerceAllWarns`. */
  function CoerceAll(cols: seq<ColumnInfo>, texts: seq<string>, parseDouble: string -> Option<real>): (r: Binding)
    requires |cols| == |texts|
    ensures r.AllBound? ==> |r.values| == |cols|
    ensures r.FirstMalformed? ==> r.column < |cols|
    decreases |cols|
  {
    if |cols| == 0 then AllBound([], [])
    else
      var n := |cols| - 1;
      var prefix := CoerceAll(cols[..n], texts[..n], parseDouble);
      if prefix.FirstMalformed? then prefix
      else
        match CoerceCell(cols[n], texts[n], parseDouble)
        case Malformed => FirstMalformed(n, prefix.warnings)
        case Accepted(v, cut) =>
          AllBound(prefix.values + [v], prefix.warnings + (if cut then [WarningFor(cols[n], n)] else []))
  }

  /** Every column is bound exactly when every cell is accepted, the
      values are the cells' values in column order, and otherwise the fold
      stops at the first malformed cell. */
  lemma {:induction false} CoerceAllBinds(cols: seq<ColumnInfo>, texts: seq<string>, parseDouble: string -> Option<real>)
    requires |cols| == |texts|
    ensures CoerceAll(cols, texts, parseDouble).AllBound?
        <==> forall i :: 0 <= i < |cols| ==> CoerceCell(cols[i], texts[i], parseDouble).Accepted?
    ensures var r := CoerceAll(cols, texts, parseDouble);
            r.AllBound? ==> forall i :: 0 <= i < |cols| ==> r.values[i] == CoerceCell(cols[i], texts[i], parseDouble).value
    ensures var r := CoerceAll(cols, texts, parseDouble);
            r.FirstMalformed? ==>
              && CoerceCell(cols[r.column], texts[r.column], parseDouble).Malformed?
              && forall i :: 0 <= i < r.column ==> CoerceCell(cols[i], texts[i], parseDouble).Accepted?
  {
    CoerceAllStops(cols, texts, parseDouble);
    CoerceAllValues(cols, texts, parseDouble);
  }

  /** When the fold does not bind, it stops at the first malformed cell. */
  lemma {:induction false} CoerceAllStops(cols: seq<ColumnInfo>, texts: seq<string>, parseDouble: string -> Option<real>)
    requires |cols| == |texts|
    ensures var r := CoerceAll(cols, texts, parseDouble);
            r.FirstMalformed? ==>
              && CoerceCell(cols[r.column], texts[r.column], parseDouble).Malformed?
              && forall i :: 0 <= i < r.column ==> CoerceCell(cols[i], texts[i], parseDouble).Accepted?
    decreases |cols|
  {
    if |cols| > 0 {
      var n := |cols| - 1;
      var prefix := CoerceAll(cols[..n], texts[..n], parseDouble);
      CoerceAllStops(cols[..n], texts[..n], parseDouble);
      assert forall i :: 0 <= i < n ==> cols[..n][i] == cols[i] && texts[..n][i] == texts[i];
      if prefix.FirstMalformed? {
        assert CoerceAll(cols, texts, parseDouble) == prefix;
      } else {
        CoerceAllValues(cols[..n], texts[..n], parseDouble);
      }
    }
  }

  /** A bound row comes from accepted cells and holds their values in
      column order. */
  lemma {:induction false} CoerceAllValues(cols: seq<ColumnInfo>, texts: seq<string>, parseDouble: string -> Option<real>)
    requires |cols| == |texts|
    ensures var r := CoerceAll(cols, texts, parseDouble);
            r.AllBound? ==> forall i :: 0 <= i < |cols| ==>
              && CoerceCell(cols[i], texts[i], parseDouble).Accepted?
              && r.values[i] == CoerceCell(cols[i], texts[i], parseDouble).value
    decreases |cols|
  {
    var r := CoerceAll(cols, texts, parseDouble);
    if |cols| > 0 && r.AllBound? {
      var n := |cols| - 1;
      var prefix := CoerceAll(cols[..n], texts[..n], parseDouble);
      CoerceAllValues(cols[..n], texts[..n], parseDouble);
      assert prefix.AllBound?;
      var v := CoerceCell(cols[n], texts[n], parseDouble).value;
      assert r.values == prefix.values + [v];
      forall i | 0 <= i < |cols|
        ensures CoerceCell(cols[i], texts[i], parseDouble).Accepted?
        ensures r.values[i] == CoerceCell(cols[i], texts[i], parseDouble).value
      {
        if i < n {
          assert cols[..n][i] == cols[i] && texts[..n][i] == texts[i];
        }
      }
    }
  }

  /** The warnings of the fold are exactly the truncated columns before
      the point where it stops, in column order. */
  lemma {:induction false} CoerceAllWarns(cols: seq<ColumnInfo>, texts: seq<string>, parseDouble: string -> Option<real>)
    requires |cols| == |texts|
    ensures var r := CoerceAll(cols, texts, parseDouble);
            WarnsExactly(r.warnings, cols, texts, if r.AllBound? then |cols| else r.column)
    decreases |cols|
  {
    if |cols| > 0 {
      var n := |cols| - 1;
      var prefix := CoerceAll(cols[..n], texts[..n], parseDouble);
      CoerceAllWarns(cols[..n], texts[..n], parseDouble);
      var r := CoerceAll(cols, texts, parseDouble);
      if prefix.FirstMalformed? {
        assert r == prefix;
        WarnsWiden(prefix.warnings, cols, texts, prefix.column);
      } else if CoerceCell(cols[n], texts[n], parseDouble).Malformed? {
        assert r == FirstMalformed(n, prefix.warnings);
        WarnsWiden(prefix.warnings, cols, texts, n);
      } else {
        var c := CoerceCell(cols[n], texts[n], parseDouble);
        assert r.warnings == prefix.warnings + (if c.truncated then [WarningFor(cols[n], n)] else []);
        WarnsExtend(prefix.warnings, cols, texts);
      }
    }
  }

  /** Warnings exact for the columns but the last stay exact once the last
      column is in view, when they stop before it. */
  lemma WarnsWiden(ws: seq<Warning>, cols: seq<ColumnInfo>, texts: seq<string>, limit: nat)
    requires |cols| == |texts| && limit < |cols|
    requires WarnsExactly(ws, cols[..|cols| - 1], texts[..|cols| - 1], limit)
    ensures WarnsExactly(ws, cols, texts, limit)
  {
    var n := |cols| - 1;
    assert forall i :: 0 <= i < n ==> cols[..n][i] == cols[i] && texts[..n][i] == texts[i];
  }

  /** Adding the last column's warning, if it is cut, keeps the warnings
      exact. */
  lemma WarnsExtend(ws: seq<Warning>, cols: seq<ColumnInfo>, texts: seq<string>)
    requires |cols| == |texts| && |cols| >= 1
    requires WarnsExactly(ws, cols[..|cols| - 1], texts[..|cols| - 1], |cols| - 1)
    ensures var n := |cols| - 1;
            WarnsExactly(ws + (if Truncates(cols[n], texts[n]) then [WarningFor(cols[n], n)] else []),
                         cols, texts, |cols|)
  {
    var n := |cols| - 1;
    var ws' := ws + (if Truncates(cols[n], texts[n]) then [WarningFor(cols[n], n)] else []);
    assert forall k :: 0 <= k < |ws| ==> ws'[k] == ws[k];
    assert forall i :: 0 <= i < n ==> cols[..n][i] == cols[i] && texts[..n][i] == texts[i];
    if Truncates(cols[n], texts[n]) {
      assert ws'[|ws|].column == n;
      assert n in WarnedColumns(ws');
    }
    assert WarnedColumns(ws) <= WarnedColumns(ws');
  }

  // ---------------------------------------------------------------------
  // The insert
  // ---------------------------------------------------------------------

  /** Either the statement is executed with every column bound, or the
      insert is abandoned at a malformed column and nothing is executed. */
  datatype InsertOutcome =
    | Executed(sql: string, values: seq<BoundValue>, warnings: seq<Warning>)
    | Abandoned(column: nat, error: FormatError, warnings: seq<Warning>)

  function InsertRow(table: string, cols: seq<ColumnInfo>, texts: seq<string>,
                     parseDouble: string -> Option<real>): (r: InsertOutcome)
    requires |texts| == |cols|
    ensures r.Executed? <==> forall i :: 0 <= i < |cols| ==> CoerceCell(cols[i], texts[i], parseDouble).Accepted?
    ensures r.Executed? ==>
              && r.sql == InsertSql(table, cols)
              && |r.values| == |cols|
              && forall i :: 0 <= i < |cols| ==> r.values[i] == CoerceCell(cols[i], texts[i], parseDouble).value
    ensures r.Abandoned? ==>
              && r.column < |cols|
              && CoerceCell(cols[r.column], texts[r.column], parseDouble).Malformed?
              && (forall i :: 0 <= i < r.column ==> CoerceCell(cols[i], texts[i], parseDouble).Accepted?)
              && r.error == FormatError(cols[r.column].name, TypeName(cols[r.column].typeCode), texts[r.column])
              && r.error.expected != UNKNOWN_TYPE_NAME
    ensures WarnsExactly(r.warnings, cols, texts, if r.Executed? then |cols| else r.column)
  {
    CoerceAllBinds(cols, texts, parseDouble);
    CoerceAllWarns(cols, texts, parseDouble);
    match CoerceAll(cols, texts, parseDouble)
    case AllBound(values, ws) => Executed(InsertSql(table, cols), values, ws)
    case FirstMalformed(k, ws) =>
      RejectingTypesAreNamed(cols[k].typeCode);
      Abandoned(k, FormatError(cols[k].name, TypeName(cols[k].typeCode), texts[k]), ws)
  }

  /** A malformed column anywhere abandons the insert, at that column or
      at an earlier one. */
  lemma MalformedAbandons(table: string, cols: seq<ColumnInfo>, texts: seq<string>,
                          parseDouble: string -> Option<real>, j: nat)
    requires |texts| == |cols| && j < |cols|
    requires CoerceCell(cols[j], texts[j], parseDouble).Malformed?
    ensures InsertRow(table, cols, texts, parseDouble).Abandoned?
    ensures InsertRow(table, cols, texts, parseDouble).column <= j
  {
  }

  /** An executed insert binds exactly one value per `?` of its statement,
      when the names themselves hold no `?`. */
  lemma {:induction false} ExecutedBindsEveryPlaceholder(table: string, cols: seq<ColumnInfo>, texts: seq<string>,
                                      parseDouble: string -> Option<real>)
    requires |texts| == |cols|
    requires '?' !in table && forall i :: 0 <= i < |cols| ==> '?' !in cols[i].name
    ensures var r := InsertRow(table, cols, texts, parseDouble);
            r.Executed? ==> Count(r.sql, '?') == |r.values|
  {
    StatementPlaceholders(table, cols);
  }

  // ---------------------------------------------------------------------
  // The dialog around the insert
  // ---------------------------------------------------------------------

  /** How the manual-insert dialog ends. */
  datatype DialogOutcome =
    | NoTables       // "Nenhuma tabela encontrada no banco de dados."
    | NotChosen      // the table chooser was closed
    | NoColumns      // "Nenhuma coluna encontrada na tabela."
    | FormCancelled  // the form was not confirmed with OK
    | Submitted(outcome: InsertOutcome)

  /** The dialog's gates before the insert: the catalog's tables, the
      user's choice (`None` when the chooser is closed), the chosen table's
      columns, whether the form was confirmed, and one text per column. */
  function ManualInsert(tables: seq<string>, chosen: Option<string>, cols: seq<ColumnInfo>,
                        confirmed: bool, texts: seq<string>,
                        parseDouble: string -> Option<real>): (r: DialogOutcome)
    requires |texts| == |cols|
    ensures r.Submitted? <==> |tables| > 0 && chosen.Some? && |cols| > 0 && confirmed
    ensures r.Submitted? ==> r.outcome == InsertRow(chosen.value, cols, texts, parseDouble)
    ensures r.Submitted? && r.outcome.Executed? ==> |r.outcome.values| >= 1
    ensures |tables| == 0 ==> r == NoTables
    ensures |tables| > 0 && chosen.Some? && |cols| == 0 ==> r == NoColumns
  {
    if |tables| == 0 then NoTables
    else if chosen.None? then NotChosen
    else if |cols| == 0 then NoColumns
    else if !confirmed then FormCancelled
    else Submitted(InsertRow(chosen.value, cols, texts, parseDouble))
  }
}
