# Visualizador: a Dafny model of the manual insert and the table mirror

The visualizador is a desktop tool that mirrors tables between a SQL Server
database (the source) and a MySQL database (the destination). It also lets a
user insert a row into a source table by hand. This project models the
decision logic of `Visualizar.java` as pure Dafny functions over strings and
sequences:

- **INSERT statement builder** (`InsertStatement`): `INSERT INTO t (c1, c2, …) VALUES (?, ?, …)`.
  The table and column names are pasted in verbatim, with no quoting. `BuildInsertSql` is
  written as the source's two string-builder loops and is proved equal to the
  declarative `InsertSql`.
- **Per-column coercion** (`Coercion`): each form field's text becomes a bound
  value according to the column's JDBC type code. The rules are:
  - empty text binds SQL NULL with the column's own type code;
  - INTEGER, SMALLINT and TINYINT use the 32-bit `Integer.parseInt`;
  - BIGINT uses `Long.parseLong`;
  - DECIMAL, NUMERIC, FLOAT and DOUBLE replace commas with periods, then use `Double.parseDouble`;
  - BIT and BOOLEAN bind "true" (any case) or "1" as true, and anything else as false;
  - every other type binds the text, cut to a positive declared length, with a warning.

  `CoerceAll` is the binding loop written as a fold. It stops at the first
  malformed column, and `InsertRow` then abandons the insert with the
  format-error message and never executes the statement. `ManualInsert`
  models the dialog's gates before the insert: no tables, chooser closed,
  no columns, or form cancelled.
- **Random value generator** (`RandomValues`): the form's "Random" button.
  The `java.util.Random` and `UUID` draws are parameters (`Draws`), each with
  the range the Java library guarantees.
- **Type names** (`SqlTypes.TypeName`): the expected-type name in the format
  error, with the default "DESCONHECIDO".
- **Table mirror** (`TableMirror`): the `PARES_TABELAS` setting split at `;`
  and then at `,` with Java's `String.split` rules. It also covers the
  "table does not exist" test of a refresh error (Java precedence makes it
  `A || (B && C)`), and what one refresh does to a pane.

Modules: `Optional` (Option), `Text` (digits, zero padding, join/split,
substring search, character rewrites), `Numbers` (Java integer parse,
`String.valueOf`, `%`), `SqlTypes` (the `java.sql.Types` codes,
`ColumnInfo`, the three dispatches on a type code), then `InsertStatement`,
`Coercion`, `RandomValues` and `TableMirror`.

Behaviour of the code worth noting:

- DATE, TIME and TIMESTAMP have no coercion of their own. They fall into the
  default branch and are bound as text, with no format check. A positive
  declared length truncates them like any text.
- An unrecognised type code is not bound "raw". It goes through the same
  default branch, including the truncation and its warning.
- REAL (type code 7) is not in the decimal family. It is bound as text, and
  the "Random" button gives it the fallback value.
- A truncation warning is shown while the loop runs. So warnings for earlier
  columns are still shown when a later column abandons the insert.
  `Abandoned` carries those warnings.

## Model

| member | source | states |
|---|---|---|
| SqlTypes.TypeName | replicacao/src/main/java/com/Visualizar.java:389-412 | the name is "DESCONHECIDO" exactly for the codes outside the nineteen named JDBC types |
| SqlTypes.TypeNamesDistinct | replicacao/src/main/java/com/Visualizar.java:389-412 | two different named codes never share a name, so the message identifies the expected type |
| SqlTypes.RejectingTypesAreNamed | replicacao/src/main/java/com/Visualizar.java:309-311 | every type whose parse can reject a value has its own name, so a format error never says "DESCONHECIDO" |
| SqlTypes.RealIsText | replicacao/src/main/java/com/Visualizar.java:276-306 | REAL binds as text and is generated by the fallback branch, since no numeric case lists it |
| SqlTypes.RulesAgree | replicacao/src/main/java/com/Visualizar.java:330-347 | the integer, BIGINT, decimal and boolean families of the generator are exactly those of the binder |
| Numbers.ParseInt | replicacao/src/main/java/com/Visualizar.java:281 | `Integer.parseInt` accepts exactly an optionally signed digit run whose value fits 32 bits |
| Numbers.ParseLong | replicacao/src/main/java/com/Visualizar.java:284 | `Long.parseLong` accepts exactly an optionally signed digit run whose value fits 64 bits |
| Numbers.ParseValueOf | replicacao/src/main/java/com/Visualizar.java:334 | parsing what `String.valueOf` writes gives the number back |
| Numbers.JavaRem | replicacao/src/main/java/com/Visualizar.java:337 | Java's `%` by a positive divisor lies strictly between minus and plus the divisor and has the sign of the dividend |
| InsertStatement.AppendSeparated | replicacao/src/main/java/com/Visualizar.java:258-261 | the append loop writes the parts in order with ", " between consecutive ones and none after the last |
| InsertStatement.BuildInsertSql | replicacao/src/main/java/com/Visualizar.java:257-267 | the built text is `INSERT INTO t (names joined by ", ") VALUES (one ? per column joined by ", ")` |
| InsertStatement.ColumnListRoundTrip | replicacao/src/main/java/com/Visualizar.java:257-261 | reading the column list back at its commas yields exactly the column names in order, when names hold no comma |
| InsertStatement.PlaceholderCount | replicacao/src/main/java/com/Visualizar.java:262-267 | the VALUES list holds exactly as many `?` as there are columns |
| InsertStatement.StatementPlaceholders | replicacao/src/main/java/com/Visualizar.java:257-267 | the whole statement holds exactly one `?` per column when the table and column names hold none |
| Coercion.NormalizeDecimal | replicacao/src/main/java/com/Visualizar.java:290-291 | the normalised text has the input's length, no comma, a period where each comma was and every other character unchanged |
| Coercion.CoerceCell | replicacao/src/main/java/com/Visualizar.java:273-307 | empty text binds NULL of the column's type; only non-empty text of a numeric family can be malformed; text is cut to exactly the declared length, with a warning, just when it is longer than a positive length; the decimal family binds what the parse of the normalised text gives |
| Coercion.IntegerFamilyCell | replicacao/src/main/java/com/Visualizar.java:278-282 | INTEGER, SMALLINT and TINYINT all accept exactly the well-formed integers within the 32-bit range: no narrower check for the small types |
| Coercion.LongFamilyCell | replicacao/src/main/java/com/Visualizar.java:283-285 | BIGINT accepts exactly the well-formed integers within the 64-bit range, signed or with leading zeros, and binds their value |
| Coercion.LongOverflowRejected | replicacao/src/main/java/com/Visualizar.java:283-285 | a number beyond 64 bits, such as 9223372036854775808, is a format error in BIGINT |
| Coercion.LongFamilyLenientForms | replicacao/src/main/java/com/Visualizar.java:283-285 | "+5", "007" and "-0" bind 5, 7 and 0 in BIGINT |
| Coercion.IntegerCellRoundTrip | replicacao/src/main/java/com/Visualizar.java:278-282 | every 32-bit number written in decimal binds to itself in the integer family |
| Coercion.LongCellRoundTrip | replicacao/src/main/java/com/Visualizar.java:283-285 | every 64-bit number written in decimal binds to itself in a BIGINT column |
| Coercion.IntOverflowRejected | replicacao/src/main/java/com/Visualizar.java:278-285 | a number beyond 32 bits but within 64 is a format error in the integer family and binds as itself in BIGINT |
| Coercion.NonNumericRejected | replicacao/src/main/java/com/Visualizar.java:276-316 | non-empty text that is not an optionally signed digit run is a format error in the integer and BIGINT families |
| Coercion.NormalizeIdempotent | replicacao/src/main/java/com/Visualizar.java:291 | normalising the decimal separator twice is normalising once |
| Coercion.DecimalCommaInsensitive | replicacao/src/main/java/com/Visualizar.java:286-293 | in the decimal family a text binds exactly as its comma-to-period version does |
| Coercion.DecimalCommaExample | replicacao/src/main/java/com/Visualizar.java:290-292 | "12,5" binds as "12.5" does |
| Coercion.BooleanCell | replicacao/src/main/java/com/Visualizar.java:294-297 | BIT and BOOLEAN never reject; the bound value is true exactly for "1" or t-r-u-e in any mix of case |
| Coercion.CoerceAllBinds | replicacao/src/main/java/com/Visualizar.java:270-318 | all columns bind exactly when each cell is accepted, value i being column i's; otherwise the fold stops at the first malformed column, every earlier one accepted |
| Coercion.CoerceAllStops | replicacao/src/main/java/com/Visualizar.java:308-316 | a fold that does not bind stops at a malformed column after only accepted ones |
| Coercion.CoerceAllValues | replicacao/src/main/java/com/Visualizar.java:276-306 | a bound row comes from accepted cells only and holds their values in column order |
| Coercion.CoerceAllWarns | replicacao/src/main/java/com/Visualizar.java:298-306 | the warnings are exactly the truncated columns before the point where the fold stops, in column order |
| Coercion.InsertRow | replicacao/src/main/java/com/Visualizar.java:269-321 | the statement is executed with one value per column exactly when no column is malformed; otherwise the insert is abandoned at the first malformed column with its name, its type's name and the typed text, and nothing is executed |
| Coercion.MalformedAbandons | replicacao/src/main/java/com/Visualizar.java:308-316 | any malformed column abandons the insert, at that column or an earlier one |
| Coercion.ExecutedBindsEveryPlaceholder | replicacao/src/main/java/com/Visualizar.java:263-274 | an executed insert binds exactly one value per `?` of its statement, when the table and column names hold no `?` |
| Coercion.ManualInsert | replicacao/src/main/java/com/Visualizar.java:170-224 | the insert is attempted exactly when there are tables, one was chosen, it has columns and the form was confirmed; an executed insert binds at least one value |
| RandomValues.UuidDashesRemoved | replicacao/src/main/java/com/Visualizar.java:355 | removing the dashes of the UUID text gives back its 32 digits |
| RandomValues.CharactersValue | replicacao/src/main/java/com/Visualizar.java:355-359 | the character value never exceeds a positive declared length |
| RandomValues.Generate | replicacao/src/main/java/com/Visualizar.java:329-386 | a character-family value never exceeds a positive declared length |
| RandomValues.SmallNumberRange | replicacao/src/main/java/com/Visualizar.java:331-334 | the integer family yields the drawn number, in 0..99, readable by `Integer.parseInt` |
| RandomValues.LongNumberRange | replicacao/src/main/java/com/Visualizar.java:336-337 | BIGINT yields a number in -9999..9999, non-negative for a non-negative draw |
| RandomValues.CharactersFit | replicacao/src/main/java/com/Visualizar.java:349-359 | the character family yields a prefix of "Texto_" plus six UUID digits, of length min(12, declared length) for a positive length and 12 otherwise |
| RandomValues.DateInRange | replicacao/src/main/java/com/Visualizar.java:361-365 | DATE yields `YYYY-MM-DD` with year 2000..2023, month 1..12, day 1..28 |
| RandomValues.TimeInRange | replicacao/src/main/java/com/Visualizar.java:367-372 | TIME yields `HH:MM:SS` with hour below 24 and minute and second below 60 |
| RandomValues.TimestampInRange | replicacao/src/main/java/com/Visualizar.java:374-382 | TIMESTAMP yields such a date, a blank and such a time, 19 characters |
| RandomValues.FallbackShape | replicacao/src/main/java/com/Visualizar.java:384-385 | any other type yields "Valor_" and the first four UUID digits |
| RandomValues.DecimalSeparatorNormalized | replicacao/src/main/java/com/Visualizar.java:339-343 | a decimal written with a comma or a period becomes the period-separated text under the insert's comma rewrite |
| RandomValues.GeneratedValueBinds | replicacao/src/main/java/com/Visualizar.java:209-211 | the value the button puts in a field is accepted by the insert: numbers and flags bind to the drawn value, characters are never cut, a decimal binds as its period-separated text |
| TableMirror.DropTrailingEmpty | replicacao/src/main/java/com/Visualizar.java:55 | the result is the input minus its trailing empty strings |
| TableMirror.JavaSplit | replicacao/src/main/java/com/Visualizar.java:55-56 | a text without the separator is one piece; otherwise the pieces are the texts between consecutive separators, in order, minus the empty ones at the end, and none holds the separator |
| TableMirror.JavaSplitRejoins | replicacao/src/main/java/com/Visualizar.java:55-56 | for a text that does not end in the separator, joining the pieces with it gives the text back |
| TableMirror.PairsOf | replicacao/src/main/java/com/Visualizar.java:68-70 | every entry with two names gives the pair of its first two, in order; otherwise the first entry with fewer names is reported |
| TableMirror.SettingRoundTrip | replicacao/src/main/java/com/Visualizar.java:54-57 | a non-empty list of pairs of plain names written as `s1,d1;s2,d2` is read back as the same pairs |
| TableMirror.TrailingSemicolonIgnored | replicacao/src/main/java/com/Visualizar.java:55 | a `;` after the last entry changes nothing |
| TableMirror.SqlServerMessageRecognised | replicacao/src/main/java/com/Visualizar.java:148 | SQL Server's "Invalid object name" message is a missing table, whatever the table's name |
| TableMirror.GroupingWouldMissSqlServer | replicacao/src/main/java/com/Visualizar.java:148 | the grouping `(A or B) and C` would not recognise SQL Server's message, for a table whose name has no `x` |
| TableMirror.MySqlMessageRecognised | replicacao/src/main/java/com/Visualizar.java:148 | MySQL's "Table '…' doesn't exist" message is a missing table |
| TableMirror.OtherMessageNotRecognised | replicacao/src/main/java/com/Visualizar.java:148 | a failed login is not taken for a missing table unless the user name itself holds "Invalid object name" or "Table" |
| TableMirror.Refresh | replicacao/src/main/java/com/Visualizar.java:136-165 | rows replace the grid and clear the label; a failure keeps the grid and shows the label exactly when it names a missing table or the label was already shown |
| TableMirror.LabelFollowsLastSettlingResult | replicacao/src/main/java/com/Visualizar.java:136-161 | after a run of refreshes the label shows exactly when the last result that was either rows or a missing table was a missing table |
| TableMirror.UnsettledRefreshesKeepPane | replicacao/src/main/java/com/Visualizar.java:162-165 | refreshes that fail for any other reason leave the pane as it was |
| TableMirror.OnTimer | replicacao/src/main/java/com/Visualizar.java:82-87 | a pane's grid changes only on a selected tick whose query returned that grid, and its label changes only on a selected tick whose result settles it |
| TableMirror.PanesIndependent | replicacao/src/main/java/com/Visualizar.java:82-87 | the source pane after a tick does not depend on the destination pane or its result, nor the destination pane on the source's |
| TableMirror.TicksRefreshSelectedOnly | replicacao/src/main/java/com/Visualizar.java:82-87 | after any run of ticks each pane is the run of refreshes over its own query's results on the selected ticks only |
| TableMirror.MissingDestinationShownIndependently | replicacao/src/main/java/com/Visualizar.java:82-86 | with the destination table missing, the source pane shows its rows while the destination pane shows the label |

## Left out

- The Swing window, tabs, dialogs and layout (`criarGUI`, `criarPainelTabela`, every `JOptionPane`). Dialog messages are returned as values: `Warning`, `FormatError`, `DialogOutcome`.
- The timer thread and the background refresh threads of `atualizarTabela`, with their hand-off to the UI thread. These are concurrency. A refresh is modelled as one function applied to the result of its query.
- TableMirror.TicksRefreshSelectedOnly: applies each selected tick's results in the order the ticks fired. The program runs every refresh on a thread of its own and applies each result when its query completes, so a query still running when the next tick fires may land after the later result. The lemma describes the program only when each tick's queries finish before the next tick, five seconds later.
- JDBC: connections, `SELECT *`, the catalog queries `obterTabelas` and `obterColunasComTipo`, `prepareStatement`, the `setX` calls and `executeUpdate`. Columns, table lists and query results are inputs. Bound values are data. A `SQLException` from preparing or executing the statement comes from the database and is not modelled.
- Dotenv credential loading. The `PARES_TABELAS` text is an input to `TablePairs`.
- `Double.parseDouble` is floating point. It is the parameter `parseDouble`, applied to the comma-normalised text.
- Coercion.CoerceCell: the decimal family binds a Dafny `real`, so NaN, Infinity and -Infinity, which `Double.parseDouble` returns for "NaN", "Infinity" or "1e999" and the statement then binds, are not represented. An instance of `parseDouble` has to map such texts either to `None`, a format error the program does not raise, or to some real that stands in for the special value.
- `String.format("%.2f", …)` is floating point and depends on the locale. Its result is modelled from the value already rounded to hundredths and the locale's decimal separator. Locales whose digits are not ASCII are not modelled, neither here nor in the `%04d` and `%02d` formats of the DATE, TIME and TIMESTAMP values, which the model writes with ASCII digits.
- `java.util.Random` and `UUID` are replaced by the explicit `Draws`. Only the ranges of the draws are modelled, not their distribution.
- `Integer.parseInt` and `Long.parseLong` also accept non-ASCII Unicode decimal digits. The model accepts ASCII digits only.
- Java strings are UTF-16. The model counts and cuts at Dafny characters, so the length check and `substring` of a text that contains surrogate pairs are not modelled.
- The null cases: a missing `PARES_TABELAS` setting and an exception without a message. Both throw `NullPointerException`.
- The escaping of names in the statement. The source does none and the model adds none.
- Numbers.JavaRem: states the range and the sign of Java's remainder, not the identity `a == (a / b) * b + a % b`, because the quotient is never used.
