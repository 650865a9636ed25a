/** The table-mirror viewer: the configured (source, destination) table
    pairs, the recognition of a "table does not exist" error, and what a
    refresh does to a pane. */
module TableMirror {
  import opened Text

  // ---------------------------------------------------------------------
  // The table-pair setting
  // ---------------------------------------------------------------------

  datatype TablePair = TablePair(source: string, destination: string)

  /** Removes the empty strings at the end of a list. */
  function DropTrailingEmpty(parts: seq<string>): (r: seq<string>)
    ensures |r| <= |parts| && r == parts[..|r|]
    ensures |r| == 0 || r[|r| - 1] != ""
    ensures forall i :: |r| <= i < |parts| ==> parts[i] == ""
    decreases |parts|
  {
    if |parts| == 0 || parts[|parts| - 1] != "" then parts
    else DropTrailingEmpty(parts[..|parts| - 1])
  }

  /** Java's `s.split(sep)` for a one-character separator that is not a
      regular-expression metacharacter: the text itself when the separator
      does not occur; otherwise every piece, minus the empty pieces at the
      end. */
  function JavaSplit(s: string, c: char): (r: seq<string>)
    ensures c !in s ==> r == [s]
    ensures forall i :: 0 <= i < |r| ==> c !in r[i]
    ensures c in s ==> var pieces := SplitOn(s, c);
              && |r| <= |pieces| && r == pieces[..|r|]
              && (|r| == 0 || r[|r| - 1] != "")
              && forall i :: |r| <= i < |pieces| ==> pieces[i] == ""
  {
    if c !in s then [s] else DropTrailingEmpty(SplitOn(s, c))
  }

  /** A text that does not end in the separator has no empty piece at
      the end. */
  lemma {:induction false} LastPieceKept(s: string, c: char)
    requires |s| > 0 && s[|s| - 1] != c
    ensures var pieces := SplitOn(s, c); pieces[|pieces| - 1] != ""
    decreases |s|
  {
    var rest := SplitOn(s[1..], c);
    if |s| > 1 {
      assert s[1..][|s[1..]| - 1] == s[|s| - 1];
      LastPieceKept(s[1..], c);
      if s[0] == c {
        assert SplitOn(s, c) == [""] + rest;
      } else {
        assert SplitOn(s, c) == [[s[0]] + rest[0]] + rest[1..];
      }
    } else {
      assert s[0] != c && rest == [""];
    }
  }

  /** When the text does not end in the separator, the split loses
      nothing: joining the pieces back gives the text. */
  lemma JavaSplitRejoins(s: string, c: char)
    requires |s| == 0 || s[|s| - 1] != c
    ensures Join(JavaSplit(s, c), [c]) == s
  {
    if c in s {
      LastPieceKept(s, c);
      JoinSplit(s, c);
    }
  }

  /** The setting split at `;` into entries, each entry split at `,`. */
  function SplitSetting(setting: string): (entries: seq<seq<string>>)
    ensures |entries| == |JavaSplit(setting, ';')|
  {
    var items := JavaSplit(setting, ';');
    seq(|items|, i requires 0 <= i < |items| => JavaSplit(items[i], ','))
  }

  /** The tabs the window is built from, or the first entry without a
      second name, where building the window fails with an index error. */
  datatype PairsOutcome = Pairs(pairs: seq<TablePair>) | MissingName(entry: nat)

  /** Reads the first two names of every entry, in order; extra names are
      ignored. */
  function PairsOf(entries: seq<seq<string>>): (r: PairsOutcome)
    ensures r.Pairs? <==> forall i :: 0 <= i < |entries| ==> |entries[i]| >= 2
    ensures r.Pairs? ==>
              && |r.pairs| == |entries|
              && forall i :: 0 <= i < |entries| ==>
                   r.pairs[i] == TablePair(entries[i][0], entries[i][1])
    ensures r.MissingName? ==>
              && r.entry < |entries| && |entries[r.entry]| < 2
              && forall i :: 0 <= i < r.entry ==> |entries[i]| >= 2
    decreases |entries|
  {
    if |entries| == 0 then Pairs([])
    else
      var n := |entries| - 1;
      var prefix := PairsOf(entries[..n]);
      if prefix.MissingName? then prefix
      else if |entries[n]| < 2 then MissingName(n)
      else Pairs(prefix.pairs + [TablePair(entries[n][0], entries[n][1])])
  }

  function TablePairs(setting: string): PairsOutcome
  {
    PairsOf(SplitSetting(setting))
  }

  /** The setting written in the form `src1,dst1;src2,dst2`. */
  function RenderSetting(pairs: seq<TablePair>): string
  {
    Join(seq(|pairs|, i requires 0 <= i < |pairs| => pairs[i].source + "," + pairs[i].destination), ";")
  }

  /** A table name that can be written in the setting. */
  predicate PlainName(name: string) {
    name != "" && ',' !in name && ';' !in name
  }

  /** An entry `src,dst` of plain names splits into exactly those names. */
  lemma EntrySplit(source: string, destination: string)
    requires PlainName(source) && PlainName(destination)
    ensures JavaSplit(source + "," + destination, ',') == [source, destination]
  {
    var e := source + "," + destination;
    assert e == source + [','] + destination;
    assert e[|source|] == ',';
    SplitOnHead(source, ',', destination);
    SplitOnFree(destination, ',');
  }

  /** Splitting plain items joined with `;` gives them back. */
  lemma {:induction false} ItemsSplit(items: seq<string>)
    requires 1 <= |items|
    requires forall i :: 0 <= i < |items| ==> items[i] != "" && ';' !in items[i]
    ensures JavaSplit(Join(items, ";"), ';') == items
  {
    SeparatorPresence(items, ';');
    if |items| >= 2 {
      SplitJoin(items, ';');
    }
  }

  /** The setting round-trips: a non-empty list of pairs of plain names,
      written in the form `src1,dst1;src2,dst2`, is read back as the same pairs. */
  lemma SettingRoundTrip(pairs: seq<TablePair>)
    requires 1 <= |pairs|
    requires forall i :: 0 <= i < |pairs| ==> PlainName(pairs[i].source) && PlainName(pairs[i].destination)
    ensures TablePairs(RenderSetting(pairs)) == Pairs(pairs)
  {
    var items := seq(|pairs|, i requires 0 <= i < |pairs| => pairs[i].source + "," + pairs[i].destination);
    forall i | 0 <= i < |items|
      ensures items[i] != "" && ';' !in items[i]
    {
      assert items[i] == pairs[i].source + "," + pairs[i].destination;
    }
    ItemsSplit(items);
    var entries := SplitSetting(RenderSetting(pairs));
    assert |entries| == |pairs|;
    forall i | 0 <= i < |entries|
      ensures entries[i] == [pairs[i].source, pairs[i].destination]
    {
      assert entries[i] == JavaSplit(items[i], ',');
      EntrySplit(pairs[i].source, pairs[i].destination);
    }
    PairsOfTwoNames(entries, pairs);
  }

  /** Entries of exactly two names each give those pairs. */
  lemma PairsOfTwoNames(entries: seq<seq<string>>, pairs: seq<TablePair>)
    requires |entries| == |pairs|
    requires forall i :: 0 <= i < |entries| ==> entries[i] == [pairs[i].source, pairs[i].destination]
    ensures PairsOf(entries) == Pairs(pairs)
  {
    var r := PairsOf(entries);
    assert r.Pairs?;
    assert |r.pairs| == |pairs|;
    forall i | 0 <= i < |pairs|
      ensures r.pairs[i] == pairs[i]
    {
      assert r.pairs[i] == TablePair(entries[i][0], entries[i][1]);
    }
  }

  /** A `;` after the last entry is ignored: the empty piece it leaves
      is dropped by the split. */
  lemma TrailingSemicolonIgnored(pairs: seq<TablePair>)
    requires 1 <= |pairs|
    requires forall i :: 0 <= i < |pairs| ==> PlainName(pairs[i].source) && PlainName(pairs[i].destination)
    ensures TablePairs(RenderSetting(pairs) + ";") == Pairs(pairs)
  {
    var items := seq(|pairs|, i requires 0 <= i < |pairs| => pairs[i].source + "," + pairs[i].destination);
    forall i | 0 <= i < |items|
      ensures items[i] != "" && ';' !in items[i]
    {
      assert items[i] == pairs[i].source + "," + pairs[i].destination;
    }
    var s := RenderSetting(pairs) + ";";
    JoinSnoc(items, "", ";");
    assert Join(items + [""], ";") == s;
    SplitJoin(items + [""], ';');
    assert s[|s| - 1] == ';';
    assert JavaSplit(s, ';') == DropTrailingEmpty(items + [""]);
    assert DropTrailingEmpty(items + [""]) == items;
    ItemsSplit(items);
    assert SplitSetting(s) == SplitSetting(RenderSetting(pairs));
    SettingRoundTrip(pairs);
  }

  // ---------------------------------------------------------------------
  // "Table does not exist"
  // ---------------------------------------------------------------------

  /** The error text of a refresh names a missing table: SQL Server's
      "Invalid object name", or MySQL's "Table ... doesn't exist". Java's
      `&&` binds tighter than `||`, so the first phrase suffices alone. */
  predicate IsTableNotFound(message: string) {
    Contains(message, "Invalid object name")
    || (Contains(message, "Table") && Contains(message, "doesn't exist"))
  }

  /** SQL Server's message for a missing table is recognised, whatever
      the table's name, although it has no "doesn't exist". */
  lemma SqlServerMessageRecognised(table: string)
    ensures IsTableNotFound("Invalid object name '" + table + "'.")
  {
    var a := "Invalid object name";
    var m := "Invalid object name '" + table + "'.";
    assert m == a + " '" + table + "'.";
    assert m[..|a|] == a;
    FoundAt(m, a, 0);
  }

  /** Grouping the test as `(A || B) && C` would have missed SQL Server's
      message: for a table whose name has no `x`, the message lacks
      "doesn't exist". */
  lemma GroupingWouldMissSqlServer(table: string)
    requires 'x' !in table
    ensures var m := "Invalid object name '" + table + "'.";
            !((Contains(m, "Invalid object name") || Contains(m, "Table")) && Contains(m, "doesn't exist"))
  {
    var m := "Invalid object name '" + table + "'.";
    assert "doesn't exist"[9] == 'x';
    assert 'x' !in m by {
      assert 'x' !in "Invalid object name '";
      assert 'x' !in "'.";
    }
    CharNeeded(m, "doesn't exist", 9);
  }

  /** MySQL's message for a missing table is recognised. */
  lemma MySqlMessageRecognised(table: string)
    ensures IsTableNotFound("Table '" + table + "' doesn't exist")
  {
    var b := "doesn't exist";
    var m := "Table '" + table + "' doesn't exist";
    assert m == "Table" + " '" + table + "' " + b;
    assert m[..5] == "Table";
    FoundAt(m, "Table", 0);
    assert m[|m| - |b|..] == b;
    FoundAt(m, b, |m| - |b|);
  }

  /** Other failures, such as a refused login, are not, unless the user
      name itself carries one of the phrases. */
  lemma OtherMessageNotRecognised(user: string)
    requires !Contains(user, "Invalid object name") && !Contains(user, "Table")
    ensures !IsTableNotFound("Login failed for user '" + user + "'.")
  {
    var pre := "Login failed for user '";
    var post := "'.";
    assert 'I' !in pre && 'T' !in pre;
    assert post[0] !in "Invalid object name" && post[1] !in "Invalid object name";
    assert post[0] !in "Table" && post[1] !in "Table";
    ContainsFramed(pre, user, post, "Invalid object name");
    ContainsFramed(pre, user, post, "Table");
  }

  // ---------------------------------------------------------------------
  // Refreshing a pane
  // ---------------------------------------------------------------------

  /** What one `SELECT *` of a refresh returned: the rows, as a grid, or
      the error message. */
  datatype QueryResult<G> = Rows(grid: G) | Failed(message: string)

  /** A pane: the grid on show and whether the red "Tabela não existe"
      label is under it. */
  datatype Pane<G> = Pane(grid: G, placeholder: bool)

  /** New rows replace the grid and clear the label; a missing table shows
      the label over the old grid; any other error only goes to the log. */
  function Refresh<G>(pane: Pane<G>, result: QueryResult<G>): (r: Pane<G>)
    ensures result.Rows? ==> r == Pane(result.grid, false)
    ensures result.Failed? ==> r.grid == pane.grid
    ensures result.Failed? ==> (r.placeholder <==> IsTableNotFound(result.message) || pane.placeholder)
  {
    match result
    case Rows(g) => Pane(g, false)
    case Failed(m) => if IsTableNotFound(m) then Pane(pane.grid, true) else pane
  }

  /** A result that settles the label one way or the other. */
  predicate Settles<G>(result: QueryResult<G>) {
    result.Rows? || IsTableNotFound(result.message)
  }

  /** A pane after a run of refreshes, oldest first. */
  function RefreshAll<G>(pane: Pane<G>, results: seq<QueryResult<G>>): Pane<G>
    decreases |results|
  {
    if |results| == 0 then pane
    else Refresh(RefreshAll(pane, results[..|results| - 1]), results[|results| - 1])
  }

  /** The label is on show exactly when the last result that settles it
      was a missing table. */
  lemma {:induction false} LabelFollowsLastSettlingResult<G>(pane: Pane<G>, results: seq<QueryResult<G>>, k: nat)
    requires k < |results| && Settles(results[k])
    requires forall j :: k < j < |results| ==> !Settles(results[j])
    ensures RefreshAll(pane, results).placeholder <==> results[k].Failed?
    decreases |results|
  {
    var n := |results| - 1;
    if k < n {
      assert results[..n][k] == results[k];
      LabelFollowsLastSettlingResult(pane, results[..n], k);
    }
  }

  /** Errors that do not settle the label change nothing at all. */
  lemma {:induction false} UnsettledRefreshesKeepPane<G>(pane: Pane<G>, results: seq<QueryResult<G>>)
    requires forall j :: 0 <= j < |results| ==> !Settles(results[j])
    ensures RefreshAll(pane, results) == pane
    decreases |results|
  {
    if |results| > 0 {
      UnsettledRefreshesKeepPane(pane, results[..|results| - 1]);
    }
  }

  /** One timer tick of a tab: both panes are refreshed, each from its own
      query, but only while the tab is the one selected. */
  function OnTimer<G>(selected: bool, source: Pane<G>, destination: Pane<G>,
                      sourceResult: QueryResult<G>, destinationResult: QueryResult<G>): (r: (Pane<G>, Pane<G>))
    ensures r.0.grid == source.grid || (selected && sourceResult == Rows(r.0.grid))
    ensures r.1.grid == destination.grid || (selected && destinationResult == Rows(r.1.grid))
    ensures r.0.placeholder != source.placeholder ==> selected && Settles(sourceResult)
    ensures r.1.placeholder != destination.placeholder ==> selected && Settles(destinationResult)
  {
    if selected then (Refresh(source, sourceResult), Refresh(destination, destinationResult))
    else (source, destination)
  }

  /** The two panes of a tab do not see each other: the source pane after a
      tick does not depend on the destination pane or its query, nor the
      destination pane on the source's. */
  lemma PanesIndependent<G>(selected: bool, source: Pane<G>, destination: Pane<G>,
                            sourceResult: QueryResult<G>, destinationResult: QueryResult<G>,
                            otherSource: Pane<G>, otherDestination: Pane<G>,
                            otherSourceResult: QueryResult<G>, otherDestinationResult: QueryResult<G>)
    ensures OnTimer(selected, source, destination, sourceResult, destinationResult).0
         == OnTimer(selected, source, otherDestination, sourceResult, otherDestinationResult).0
    ensures OnTimer(selected, source, destination, sourceResult, destinationResult).1
         == OnTimer(selected, otherSource, destination, otherSourceResult, destinationResult).1
  {
  }

  /** A pair whose destination table is missing: the source pane shows
      its rows while the destination pane shows the label, each from its
      own query. */
  lemma MissingDestinationShownIndependently<G>(source: Pane<G>, destination: Pane<G>, rows: G, table: string)
    ensures OnTimer(true, source, destination, Rows(rows), Failed("Table '" + table + "' doesn't exist"))
         == (Pane(rows, false), Pane(destination.grid, true))
  {
    MySqlMessageRecognised(table);
  }

  /** One tick as the tab sees it: whether it was the selected tab, and what
      the two queries would return. */
  datatype Tick<G> = Tick(selected: bool, sourceResult: QueryResult<G>, destinationResult: QueryResult<G>)

  /** The two panes of a tab after a run of ticks, oldest first. */
  function RunTicks<G>(source: Pane<G>, destination: Pane<G>, ticks: seq<Tick<G>>): (Pane<G>, Pane<G>)
    decreases |ticks|
  {
    if |ticks| == 0 then (source, destination)
    else
      var panes := RunTicks(source, destination, ticks[..|ticks| - 1]);
      var t := ticks[|ticks| - 1];
      OnTimer(t.selected, panes.0, panes.1, t.sourceResult, t.destinationResult)
  }

  /** The source query results of the ticks on which the tab was selected. */
  function SelectedSourceResults<G>(ticks: seq<Tick<G>>): seq<QueryResult<G>>
    decreases |ticks|
  {
    if |ticks| == 0 then []
    else
      var t := ticks[|ticks| - 1];
      SelectedSourceResults(ticks[..|ticks| - 1]) + (if t.selected then [t.sourceResult] else [])
  }

  /** The destination query results of the ticks on which the tab was
      selected. */
  function SelectedDestinationResults<G>(ticks: seq<Tick<G>>): seq<QueryResult<G>>
    decreases |ticks|
  {
    if |ticks| == 0 then []
    else
      var t := ticks[|ticks| - 1];
      SelectedDestinationResults(ticks[..|ticks| - 1]) + (if t.selected then [t.destinationResult] else [])
  }

  lemma RefreshAllSnoc<G>(pane: Pane<G>, results: seq<QueryResult<G>>, result: QueryResult<G>)
    ensures RefreshAll(pane, results + [result]) == Refresh(RefreshAll(pane, results), result)
  {
    assert (results + [result])[..|results|] == results;
  }

  /** After any run of ticks, each pane is what its own query's results on
      the selected ticks alone make of it: ticks on other tabs change
      nothing, and the two panes never mix. */
  lemma {:induction false} TicksRefreshSelectedOnly<G>(source: Pane<G>, destination: Pane<G>, ticks: seq<Tick<G>>)
    ensures RunTicks(source, destination, ticks)
         == (RefreshAll(source, SelectedSourceResults(ticks)),
             RefreshAll(destination, SelectedDestinationResults(ticks)))
    decreases |ticks|
  {
    if |ticks| > 0 {
      var before := ticks[..|ticks| - 1];
      var t := ticks[|ticks| - 1];
      TicksRefreshSelectedOnly(source, destination, before);
      if t.selected {
        RefreshAllSnoc(source, SelectedSourceResults(before), t.sourceResult);
        RefreshAllSnoc(destination, SelectedDestinationResults(before), t.destinationResult);
      } else {
        assert SelectedSourceResults(ticks) == SelectedSourceResults(before) + [];
        assert SelectedDestinationResults(ticks) == SelectedDestinationResults(before) + [];
        assert SelectedSourceResults(before) + [] == SelectedSourceResults(before);
        assert SelectedDestinationResults(before) + [] == SelectedDestinationResults(before);
      }
    }
  }
}
