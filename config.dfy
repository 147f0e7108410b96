/** `parseGitConfig`: `git config --list` output, one `key=value` row per
    line, to a table from key to value. */
module ConfigParser {
  import opened Results
  import opened JsText

  /** The key and value of one row: the text before the first `=`, and the
      text between the first and a second `=` (or the end); `undefined` when
      the row has no `=`. */
  function Entry(row: string): (r: (string, Option<string>))
    ensures '=' !in r.0
    ensures r.1.Some? ==> '=' !in r.1.value
    ensures r.1.None? <==> '=' !in row
    ensures r.1.None? ==> r.0 == row
  {
    var ss := Split(row, "=");
    SplitPieces(row, "=");
    SplitWithout(row, "=");
    (ss[0], if |ss| > 1 then Some(ss[1]) else None)
  }

  /** The table after the `forEach`: every row is written, empty ones included,
      and a later row overwrites an earlier one with the same key. */
  function ConfigTable(rows: seq<string>): (r: map<string, Option<string>>)
    ensures forall k :: k in r ==> '=' !in k && (r[k].Some? ==> '=' !in r[k].value)
    ensures rows != [] ==> r != map[]
    decreases |rows|
  {
    if rows == [] then map[]
    else
      var e := Entry(rows[|rows| - 1]);
      var table := ConfigTable(rows[..|rows| - 1])[e.0 := e.1];
      assert e.0 in table;
      table
  }

  /** What `parseGitConfig(text)` returns. */
  function ConfigOf(text: string): (r: map<string, Option<string>>)
    ensures r != map[]
    ensures forall k :: k in r ==> '=' !in k && (r[k].Some? ==> '=' !in r[k].value)
  {
    ConfigTable(Split(text, EOL))
  }

  method ParseConfig(text: string) returns (conf: map<string, Option<string>>)
    ensures conf == ConfigOf(text)
  {
    var rows := Split(text, EOL);
    conf := map[];
    var i := 0;
    while i < |rows|
      invariant 0 <= i <= |rows|
      invariant conf == ConfigTable(rows[..i])
    {
      var ss := Split(rows[i], "=");
      ConfigTableStep(rows, i);
      conf := conf[ss[0] := if |ss| > 1 then Some(ss[1]) else None];
      i := i + 1;
    }
    assert rows[..i] == rows;
  }

  /** The loop's step: the rows up to row `i` are those before it and row `i`. */
  lemma {:induction false} ConfigTableStep(rows: seq<string>, i: nat)
    requires i < |rows|
    ensures ConfigTable(rows[..i + 1]) == ConfigTable(rows[..i])[Entry(rows[i]).0 := Entry(rows[i]).1]
  {
    assert rows[..i + 1][..i] == rows[..i] && rows[..i + 1][i] == rows[i];
  }

  /** A key is in the table exactly when some row has it as its key. */
  lemma {:induction false} ConfigKeys(rows: seq<string>, k: string)
    ensures k in ConfigTable(rows) <==> exists i :: 0 <= i < |rows| && Entry(rows[i]).0 == k
    decreases |rows|
  {
    if rows != [] {
      var init := rows[..|rows| - 1];
      ConfigKeys(init, k);
      if k in ConfigTable(init) {
        var i :| 0 <= i < |init| && Entry(init[i]).0 == k;
        assert rows[i] == init[i];
      }
      if exists i :: 0 <= i < |rows| && Entry(rows[i]).0 == k {
        var i :| 0 <= i < |rows| && Entry(rows[i]).0 == k;
        if i < |init| {
          assert init[i] == rows[i];
        }
      }
    }
  }

  /** The last row with a key decides its value. */
  lemma {:induction false} ConfigLastWins(rows: seq<string>, i: nat)
    requires i < |rows|
    requires forall j :: i < j < |rows| ==> Entry(rows[j]).0 != Entry(rows[i]).0
    ensures Entry(rows[i]).0 in ConfigTable(rows)
    ensures ConfigTable(rows)[Entry(rows[i]).0] == Entry(rows[i]).1
    decreases |rows|
  {
    var init := rows[..|rows| - 1];
    if i < |rows| - 1 {
      assert forall j :: i < j < |init| ==> Entry(init[j]).0 != Entry(init[i]).0 by {
        forall j | i < j < |init| ensures Entry(init[j]).0 != Entry(init[i]).0 {
          assert init[j] == rows[j];
        }
      }
      ConfigLastWins(init, i);
    }
  }

  /** `key=value` gives the key and the value; anything after a second `=` is lost. */
  lemma {:induction false} EntryRoundTrip(key: string, value: string, more: string)
    requires '=' !in key && '=' !in value
    ensures Entry(key + "=" + value) == (key, Some(value))
    ensures Entry(key + "=" + value + "=" + more) == (key, Some(value))
  {
    EntryOfPair(key, value);
    EntryOfTriple(key, value, more);
  }

  lemma {:induction false} EntryOfPair(key: string, value: string)
    requires '=' !in key && '=' !in value
    ensures Entry(key + "=" + value) == (key, Some(value))
  {
    SplitSeparated(key, "=", value);
    SplitUnseparated(value, "=");
  }

  lemma {:induction false} EntryOfTriple(key: string, value: string, more: string)
    requires '=' !in key && '=' !in value
    ensures Entry(key + "=" + value + "=" + more) == (key, Some(value))
  {
    SplitSeparated(key, "=", value + "=" + more);
    SplitSeparated(value, "=", more);
    assert key + "=" + value + "=" + more == key + "=" + (value + "=" + more);
  }

  /** Text ending in a newline always has the empty key, with no value. */
  lemma {:induction false} TrailingNewlineEmptyKey(text: string)
    ensures "" in ConfigOf(text + EOL) && ConfigOf(text + EOL)[""] == None
  {
    SplitTrailingSeparator(text, EOL);
  }

  /** The empty text is one empty row: the table holds the empty key alone. */
  lemma {:induction false} EmptyConfig()
    ensures ConfigOf("") == map["" := None]
  {
    var e := Entry("");
  }
}
