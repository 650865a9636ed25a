/** The parameterised INSERT statement of the manual-insert flow:
    `INSERT INTO <table> (<c1>, <c2>, ...) VALUES (?, ?, ...)`, with the
    table and column names pasted in verbatim (no quoting, no escaping). */
module InsertStatement {
  import opened Text
  import opened SqlTypes

  const SEPARATOR: string := ", "

  /** One `?` per column. */
  function Placeholders(n: nat): (ps: seq<string>)
    ensures |ps| == n
    ensures forall i :: 0 <= i < n ==> ps[i] == "?"
  {
    seq(n, _ => "?")
  }

  /** The statement text for a table and its columns, in column order. */
  function InsertSql(table: string, cols: seq<ColumnInfo>): string
  {
    "INSERT INTO " + table + " (" + Join(Names(cols), SEPARATOR)
      + ") VALUES (" + Join(Placeholders(|cols|), SEPARATOR) + ")"
  }

  /** Appends the parts to `prefix`, with `", "` after every part but the
      last: the loop the program runs twice, once over the column names and
      once over the placeholders. */
  method AppendSeparated(prefix: string, parts: seq<string>) returns (out: string)
    ensures out == prefix + Join(parts, SEPARATOR)
  {
    out := prefix;
    var i := 0;
    while i < |parts|
      invariant 0 <= i <= |parts|
      invariant i == 0 ==> out == prefix
      invariant 0 < i ==> out == prefix + Join(parts[..i], SEPARATOR) + (if i < |parts| then SEPARATOR else "")
    {
      var joined := Join(parts[..i + 1], SEPARATOR);
      if i > 0 {
        JoinSnoc(parts[..i], parts[i], SEPARATOR);
        assert parts[..i] + [parts[i]] == parts[..i + 1];
      } else {
        assert parts[..1] == [parts[0]];
      }
      assert out + parts[i] == prefix + joined;
      out := out + parts[i];
      if i < |parts| - 1 {
        out := out + SEPARATOR;
      }
      i := i + 1;
    }
    assert parts[..|parts|] == parts;
  }

  /** Builds the statement text the way the program's string builder does. */
  method BuildInsertSql(table: string, cols: seq<ColumnInfo>) returns (sql: string)
    ensures sql == InsertSql(table, cols)
  {
    sql := "INSERT INTO " + table + " (";
    sql := AppendSeparated(sql, Names(cols));
    sql := sql + ") VALUES (";
    sql := AppendSeparated(sql, Placeholders(|cols|));
    sql := sql + ")";
  }

  // ---------------------------------------------------------------------
  // What the statement says
  // ---------------------------------------------------------------------

  /** Removes the blank the separator leaves in front of a name. */
  function DropBlank(s: string): string
  {
    if |s| > 0 && s[0] == ' ' then s[1..] else s
  }

  function DropBlanks(parts: seq<string>): (r: seq<string>)
    ensures |r| == |parts|
    ensures forall i :: 0 <= i < |parts| ==> r[i] == DropBlank(parts[i])
  {
    seq(|parts|, i requires 0 <= i < |parts| => DropBlank(parts[i]))
  }

  /** Reads a column list back: split at the commas, then drop the blank
      that follows each comma. */
  function SplitColumnList(list: string): (names: seq<string>)
    ensures |names| == Count(list, ',') + 1
  {
    var parts := SplitOn(list, ',');
    [parts[0]] + DropBlanks(parts[1..])
  }

  /** Every name but the first, each behind the blank the separator
      leaves. */
  function BehindBlanks(names: seq<string>): (r: seq<string>)
    requires 1 <= |names|
    ensures |r| == |names| - 1
    ensures forall i :: 0 <= i < |r| ==> r[i] == " " + names[i + 1]
  {
    seq(|names| - 1, i requires 0 <= i < |names| - 1 => " " + names[i + 1])
  }

  /** Splitting a `", "`-joined list at its commas leaves every name but
      the first behind a blank. */
  lemma {:induction false} SplitSeparated(names: seq<string>)
    requires 1 <= |names|
    requires forall i :: 0 <= i < |names| ==> ',' !in names[i]
    ensures SplitOn(Join(names, SEPARATOR), ',') == [names[0]] + BehindBlanks(names)
    decreases |names|
  {
    if |names| == 1 {
      SplitOnFree(names[0], ',');
    } else {
      var rest := Join(names[1..], SEPARATOR);
      JoinHead(names);
      SplitOnHead(names[0], ',', " " + rest);
      SplitSeparated(names[1..]);
      SplitAfterBlank(rest);
      BehindBlanksHead(names);
    }
  }

  /** A list of two or more names is the first, a comma, and a blank in
      front of the rest. */
  lemma JoinHead(names: seq<string>)
    requires 2 <= |names|
    ensures Join(names, SEPARATOR) == names[0] + [','] + (" " + Join(names[1..], SEPARATOR))
  {
  }

  lemma BehindBlanksHead(names: seq<string>)
    requires 2 <= |names|
    ensures BehindBlanks(names) == [" " + names[1]] + BehindBlanks(names[1..])
  {
    var r := BehindBlanks(names);
    var t := BehindBlanks(names[1..]);
    forall k | 0 <= k < |r|
      ensures r[k] == ([" " + names[1]] + t)[k]
    {
      if k > 0 {
        assert t[k - 1] == " " + names[1..][k];
      }
    }
  }

  /** A blank in front of a list joins the first piece. */
  lemma SplitAfterBlank(x: string)
    ensures var r := SplitOn(x, ',');
            SplitOn(" " + x, ',') == [" " + r[0]] + r[1..]
  {
    assert (" " + x)[0] == ' ' && (" " + x)[1..] == x;
  }

  /** Dropping the blanks gives back the names after the first. */
  lemma BlanksDropped(names: seq<string>)
    requires 1 <= |names|
    ensures DropBlanks(BehindBlanks(names)) == names[1..]
  {
    var tail := DropBlanks(BehindBlanks(names));
    forall i | 0 <= i < |tail|
      ensures tail[i] == names[1..][i]
    {
      assert BehindBlanks(names)[i] == " " + names[i + 1];
    }
  }

  /** The column list of the statement names the columns in the given
      order: reading it back yields exactly the column names, provided no
      name contains a comma. */
  lemma ColumnListRoundTrip(cols: seq<ColumnInfo>)
    requires 1 <= |cols|
    requires forall i :: 0 <= i < |cols| ==> ',' !in cols[i].name
    ensures SplitColumnList(Join(Names(cols), SEPARATOR)) == Names(cols)
  {
    var names := Names(cols);
    var parts := SplitOn(Join(names, SEPARATOR), ',');
    SplitSeparated(names);
    assert parts[0] == names[0] && parts[1..] == BehindBlanks(names);
    BlanksDropped(names);
    assert [names[0]] + names[1..] == names;
  }

  /** A character absent from the parts and the separator is absent from
      the joined text. */
  lemma {:induction false} JoinAvoids(parts: seq<string>, sep: string, c: char)
    requires c !in sep
    requires forall i :: 0 <= i < |parts| ==> c !in parts[i]
    ensures c !in Join(parts, sep)
    decreases |parts|
  {
    if |parts| >= 2 {
      JoinAvoids(parts[1..], sep, c);
    }
  }

  /** The VALUES list holds exactly one `?` per column. */
  lemma {:induction false} PlaceholderCount(n: nat)
    ensures Count(Join(Placeholders(n), SEPARATOR), '?') == n
    decreases n
  {
    if n >= 2 {
      var rest := Join(Placeholders(n - 1), SEPARATOR);
      assert Placeholders(n)[1..] == Placeholders(n - 1);
      assert Join(Placeholders(n), SEPARATOR) == "?" + SEPARATOR + rest;
      PlaceholderCount(n - 1);
      CountAppend("?" + SEPARATOR, rest, '?');
      CountAppend("?", SEPARATOR, '?');
    } else if n == 1 {
      assert Join(Placeholders(1), SEPARATOR) == "?";
    }
  }

  /** When neither the table nor any column name contains `?`, the whole
      statement has exactly as many `?` as there are columns. */
  lemma {:induction false} StatementPlaceholders(table: string, cols: seq<ColumnInfo>)
    requires '?' !in table
    requires forall i :: 0 <= i < |cols| ==> '?' !in cols[i].name
    ensures Count(InsertSql(table, cols), '?') == |cols|
  {
    var list := Join(Names(cols), SEPARATOR);
    var values := Join(Placeholders(|cols|), SEPARATOR);
    JoinAvoids(Names(cols), SEPARATOR, '?');
    PlaceholderCount(|cols|);
    var a := "INSERT INTO " + table + " (" + list + ") VALUES (";
    assert '?' !in a;
    assert InsertSql(table, cols) == a + values + ")";
    CountAppend(a, values, '?');
    CountAppend(a + values, ")", '?');
  }
}
