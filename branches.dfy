/** `parseGitBranches`: `git branch` output, one branch per row with a
    two-column marker (`* ` on the checked-out branch), to a list of branches. */
module BranchParser {
  import opened Results
  import opened JsText

  /** A listed branch; `current` is set only on the row marked `*`. */
  datatype Branch = Branch(name: string, current: bool)

  /** The branch of one non-blank row: the name from column 2 on. */
  function BranchOfRow(row: string): (b: Branch)
    ensures |row| >= 2 ==> row == row[..2] + b.name
    ensures |row| <= 2 ==> b.name == ""
    ensures b.current <==> StartsWith(row, "*")
  {
    Branch(Drop(row, 2), row != "" && row[0] == '*')
  }

  /** The branches after the `forEach`: blank rows are skipped, the others
      pushed in order. */
  function BranchList(rows: seq<string>): (r: seq<Branch>)
    ensures |r| <= |rows|
    ensures (forall i :: 0 <= i < |rows| ==> AllSpace(rows[i])) ==> r == []
    decreases |rows|
  {
    if rows == [] then []
    else
      var init := BranchList(rows[..|rows| - 1]);
      var row := rows[|rows| - 1];
      TrimShape(row);
      if Trim(row) == "" then init else init + [BranchOfRow(row)]
  }

  /** What `parseGitBranches(text)` returns. */
  function BranchesOf(text: string): (r: seq<Branch>)
    ensures |r| <= |Split(text, EOL)|
  {
    BranchList(Split(text, EOL))
  }

  method ParseBranches(text: string) returns (branches: seq<Branch>)
    ensures branches == BranchesOf(text)
  {
    var rows := Split(text, EOL);
    branches := [];
    var i := 0;
    while i < |rows|
      invariant 0 <= i <= |rows|
      invariant branches == BranchList(rows[..i])
    {
      var row := rows[i];
      BranchListSnoc(rows, i);
      if Trim(row) != "" {
        var current := row[0] == '*';
        branches := branches + [Branch(Drop(row, 2), current)];
      }
      i := i + 1;
    }
    assert rows[..i] == rows;
  }

  /** One more row: its branch after the others, unless it is blank. */
  lemma {:induction false} BranchListSnoc(rows: seq<string>, i: nat)
    requires i < |rows|
    ensures BranchList(rows[..i + 1])
      == BranchList(rows[..i]) + (if Trim(rows[i]) == "" then [] else [BranchOfRow(rows[i])])
  {
    assert rows[..i + 1][..i] == rows[..i] && rows[..i + 1][i] == rows[i];
  }

  /** Rows after rows: their branches after theirs. */
  lemma {:induction false} BranchListAppend(a: seq<string>, b: seq<string>)
    ensures BranchList(a + b) == BranchList(a) + BranchList(b)
    decreases |b|
  {
    if b == [] {
      assert a + b == a;
    } else {
      var init := b[..|b| - 1];
      assert (a + b)[..|a + b| - 1] == a + init;
      assert (a + b)[|a + b| - 1] == b[|b| - 1];
      BranchListAppend(a, init);
    }
  }

  /** The number of branches is the number of rows that are not blank. */
  function NonBlankRows(rows: seq<string>): nat
    decreases |rows|
  {
    if rows == [] then 0 else (if AllSpace(rows[0]) then 0 else 1) + NonBlankRows(rows[1..])
  }

  lemma {:induction false} BranchCount(rows: seq<string>)
    ensures |BranchList(rows)| == NonBlankRows(rows)
    decreases |rows|
  {
    if rows != [] {
      assert rows == [rows[0]] + rows[1..];
      BranchListAppend([rows[0]], rows[1..]);
      BranchCount(rows[1..]);
      TrimShape(rows[0]);
      assert [rows[0]][..0] == [];
    }
  }

  /** The row `git branch` prints for a branch. */
  function BranchRow(b: Branch): string {
    (if b.current then "* " else "  ") + b.name
  }

  function BranchRows(bs: seq<Branch>): (rows: seq<string>)
    ensures |rows| == |bs|
  {
    seq(|bs|, i requires 0 <= i < |bs| => BranchRow(bs[i]))
  }

  /** A branch name git could print: not blank. */
  predicate PrintableName(name: string) {
    !AllSpace(name)
  }

  /** A printed row gives back its branch. */
  lemma {:induction false} BranchRowRoundTrip(b: Branch)
    requires PrintableName(b.name)
    ensures Trim(BranchRow(b)) != "" && BranchOfRow(BranchRow(b)) == b
  {
    var row := BranchRow(b);
    var marker := if b.current then "* " else "  ";
    assert row[..2] == marker && row[2..] == b.name;
    TrimShape(row);
  }

  /** The printed rows of branches give back the branches, in order. */
  lemma {:induction false} BranchListRoundTrip(bs: seq<Branch>)
    requires forall i :: 0 <= i < |bs| ==> PrintableName(bs[i].name)
    ensures BranchList(BranchRows(bs)) == bs
    decreases |bs|
  {
    if bs != [] {
      var init := bs[..|bs| - 1];
      var last := bs[|bs| - 1];
      assert BranchRows(bs)[..|bs| - 1] == BranchRows(init);
      BranchListRoundTrip(init);
      BranchRowRoundTrip(last);
      assert init + [last] == bs;
    }
  }

  /** The text `git branch` prints, lines ending in newlines, gives back the branches. */
  lemma {:induction false} BranchTextRoundTrip(bs: seq<Branch>)
    requires bs != []
    requires forall i :: 0 <= i < |bs| ==> PrintableName(bs[i].name) && '\n' !in bs[i].name
    ensures BranchesOf(Join(BranchRows(bs), EOL) + EOL) == bs
  {
    var rows := BranchRows(bs);
    assert forall i :: 0 <= i < |rows| ==> '\n' !in rows[i] by {
      forall i | 0 <= i < |rows| ensures '\n' !in rows[i] {
        assert rows[i] == BranchRow(bs[i]);
      }
    }
    SplitJoinRest(rows, EOL, "");
    assert Join(rows, EOL) + EOL == Join(rows, EOL) + EOL + "";
    assert Split("", EOL) == [""];
    BranchListAppend(rows, [""]);
    assert BranchList([""]) == [] by {
      assert [""][..0] == [];
      assert Trim("") == "";
    }
    BranchListRoundTrip(bs);
    assert bs + [] == bs;
  }
}
