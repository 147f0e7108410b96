/** `parseGitStatus`: porcelain status text (first line the branch line, then one
    `XY path` line per file) to the branch name and a map from path to flags. */
module StatusParser {
  import opened Results
  import opened JsText

  /** The four flags derived from a two-character status code. */
  datatype FileStatus = FileStatus(staged: bool, removed: bool, isNew: bool, conflict: bool)

  datatype RepositoryStatus = RepositoryStatus(branch: string, files: map<string, FileStatus>)

  /** The flags of a status line, from `status[0]` and `status[1]`; on a
      one-character line `status[1]` is undefined and equals nothing. */
  function LineFlags(line: string): (r: FileStatus)
    requires line != ""
    ensures !(r.isNew && r.removed)
    ensures |line| == 1 ==> (r.removed <==> line[0] == 'D') && (r.conflict <==> line[0] == 'U')
  {
    var x := line[0];
    var y: Option<char> := if |line| > 1 then Some(line[1]) else None;
    var removed := x == 'D' || y == Some('D');
    FileStatus(x == 'A' || x == 'M', removed, (x == '?' || x == 'A') && !removed, x == 'U' || y == Some('U'))
  }

  /** Removes one leading and one trailing double quote when both are there;
      a lone `"` becomes empty, as `slice(1, 0)` does. */
  function Unquote(f: string): (r: string)
    ensures |f| >= 2 && f[0] == '"' && f[|f| - 1] == '"' ==> "\"" + r + "\"" == f
    ensures f == "\"" ==> r == ""
    ensures !(|f| > 0 && f[0] == '"' && f[|f| - 1] == '"') ==> r == f
    ensures |r| <= |f|
  {
    if |f| > 0 && f[0] == '"' && f[|f| - 1] == '"' then (if |f| >= 2 then f[1..|f| - 1] else "") else f
  }

  /** The map key for a status line: the text from column 3, trimmed and unquoted. */
  function PathOf(line: string): (r: string)
    ensures |line| <= 3 ==> r == ""
    ensures |r| + 3 <= |line| || r == ""
  {
    TrimShorter(Drop(line, 3));
    Unquote(Trim(Drop(line, 3)))
  }

  /** The last `' '`-separated token of the first line. */
  function BranchOf(first: string): (r: string)
    ensures ' ' !in r
    ensures ' ' !in first ==> r == first
  {
    SplitPieces(first, " ");
    SplitWithout(first, " ");
    Last(Split(first, " "))
  }

  /** The `files` map after the `forEach` over the file lines: empty lines are
      skipped, and a later line for the same path overwrites the earlier one. */
  function StatusFiles(lines: seq<string>): (r: map<string, FileStatus>)
    ensures forall k :: k in r ==> !(r[k].isNew && r[k].removed)
    ensures (forall i :: 0 <= i < |lines| ==> lines[i] == "") ==> r == map[]
    decreases |lines|
  {
    if lines == [] then map[]
    else
      var files := StatusFiles(lines[..|lines| - 1]);
      var line := lines[|lines| - 1];
      if line == "" then files else files[PathOf(line) := LineFlags(line)]
  }

  /** What `parseGitStatus(text)` returns (its constant `inited` field left out). */
  function StatusOf(text: string): (r: RepositoryStatus)
    ensures ' ' !in r.branch
    ensures forall k :: k in r.files ==> !(r.files[k].isNew && r.files[k].removed)
  {
    var lines := Split(text, EOL);
    RepositoryStatus(BranchOf(lines[0]), StatusFiles(lines[1..]))
  }

  method ParseStatus(text: string) returns (status: RepositoryStatus)
    ensures status == StatusOf(text)
  {
    var lines := Split(text, EOL);
    var branch := BranchOf(lines[0]);
    var files: map<string, FileStatus> := map[];
    var i := 1;
    while i < |lines|
      invariant 1 <= i <= |lines|
      invariant files == StatusFiles(lines[1..i])
    {
      var line := lines[i];
      StatusFilesStep(lines, i);
      if line != "" {
        files := files[PathOf(line) := LineFlags(line)];
      }
      i := i + 1;
    }
    assert lines[1..i] == lines[1..];
    status := RepositoryStatus(branch, files);
  }

  /** The loop's step: the file lines up to line `i` are those before it and line `i`. */
  lemma {:induction false} StatusFilesStep(lines: seq<string>, i: nat)
    requires 1 <= i < |lines|
    ensures StatusFiles(lines[1..i + 1])
      == if lines[i] == "" then StatusFiles(lines[1..i]) else StatusFiles(lines[1..i])[PathOf(lines[i]) := LineFlags(lines[i])]
  {
    var next := lines[1..i + 1];
    assert next[..|next| - 1] == lines[1..i];
    assert next[|next| - 1] == lines[i];
  }

  /** One more line adds its path unless it is empty. */
  lemma {:induction false} StatusFilesSnoc(lines: seq<string>, k: string)
    requires lines != []
    ensures var last := lines[|lines| - 1];
      k in StatusFiles(lines) <==> k in StatusFiles(lines[..|lines| - 1]) || (last != "" && PathOf(last) == k)
  {
  }

  /** A path is a key exactly when some non-empty file line names it. */
  lemma {:induction false} StatusFileKeys(lines: seq<string>, k: string)
    ensures k in StatusFiles(lines) <==> exists i :: 0 <= i < |lines| && lines[i] != "" && PathOf(lines[i]) == k
    decreases |lines|
  {
    if lines != [] {
      var init := lines[..|lines| - 1];
      StatusFileKeys(init, k);
      StatusFilesSnoc(lines, k);
      NamingLineSnoc(lines, k);
    }
  }

  /** Some line of `lines` names `k` exactly when one before the last does or the last does. */
  lemma {:induction false} NamingLineSnoc(lines: seq<string>, k: string)
    requires lines != []
    ensures var init, n := lines[..|lines| - 1], |lines| - 1;
      (exists i :: 0 <= i < |lines| && lines[i] != "" && PathOf(lines[i]) == k)
      <==> (exists i :: 0 <= i < |init| && init[i] != "" && PathOf(init[i]) == k) || (lines[n] != "" && PathOf(lines[n]) == k)
  {
    var init, n := lines[..|lines| - 1], |lines| - 1;
    if exists i :: 0 <= i < |lines| && lines[i] != "" && PathOf(lines[i]) == k {
      var i :| 0 <= i < |lines| && lines[i] != "" && PathOf(lines[i]) == k;
      if i < n {
        assert init[i] == lines[i];
      }
    }
    if exists i :: 0 <= i < |init| && init[i] != "" && PathOf(init[i]) == k {
      var i :| 0 <= i < |init| && init[i] != "" && PathOf(init[i]) == k;
      assert lines[i] == init[i];
    }
  }

  /** The last non-empty line for a path decides its flags, and the flags follow
      the code table: staged iff X is A or M; removed iff X or Y is D; new iff X is
      ? or A and the file is not removed; conflict iff X or Y is U. */
  lemma {:induction false} StatusLastLineWins(lines: seq<string>, i: nat)
    requires i < |lines| && lines[i] != ""
    requires forall j :: i < j < |lines| && lines[j] != "" ==> PathOf(lines[j]) != PathOf(lines[i])
    ensures PathOf(lines[i]) in StatusFiles(lines)
    ensures StatusFiles(lines)[PathOf(lines[i])] == LineFlags(lines[i])
    ensures var f, x := LineFlags(lines[i]), lines[i][0];
            var y := if |lines[i]| > 1 then lines[i][1] else ' ';
            && (f.staged <==> x == 'A' || x == 'M')
            && (f.removed <==> x == 'D' || y == 'D')
            && (f.isNew <==> (x == '?' || x == 'A') && !f.removed)
            && (f.conflict <==> x == 'U' || y == 'U')
    decreases |lines|
  {
    var init := lines[..|lines| - 1];
    if i < |lines| - 1 {
      assert forall j :: i < j < |init| && init[j] != "" ==> PathOf(init[j]) != PathOf(init[i]) by {
        forall j | i < j < |init| && init[j] != "" ensures PathOf(init[j]) != PathOf(init[i]) {
          assert init[j] == lines[j];
        }
      }
      StatusLastLineWins(init, i);
    }
  }

  /** Codes outside the table give four false flags rather than an error. */
  lemma {:induction false} UnknownCodeNoFlags(line: string)
    requires line != "" && line[0] !in "AMD?U"
    requires |line| > 1 ==> line[1] !in "DU"
    ensures LineFlags(line) == FileStatus(false, false, false, false)
  {
  }

  /** The flags are independent: a modification staged while the work tree deletes the file is both. */
  lemma {:induction false} StagedAndRemoved(path: string)
    ensures LineFlags("MD " + path).staged && LineFlags("MD " + path).removed
  {
  }

  /** A quoted path loses exactly its two quotes. */
  lemma {:induction false} QuotedPathKey(code: string, p: string)
    requires |code| == 2
    ensures PathOf(code + " \"" + p + "\"") == p
  {
    var q := "\"" + p + "\"";
    assert Drop(code + " \"" + p + "\"", 3) == q;
    TrimPad("", q, "");
    assert "" + q + "" == q;
    assert q[1..|q| - 1] == p;
  }

  /** An unquoted path with no whitespace at either end is the key as it stands,
      whatever whitespace separates it from the code. */
  lemma {:induction false} PlainPathKey(code: string, gap: string, p: string)
    requires |code| == 2 && |gap| >= 1 && AllSpace(gap)
    requires p != [] && !IsSpace(p[0]) && !IsSpace(p[|p| - 1])
    requires !(p[0] == '"' && p[|p| - 1] == '"')
    ensures PathOf(code + gap + p) == p
  {
    assert Drop(code + gap + p, 3) == gap[1..] + p;
    assert AllSpace(gap[1..]);
    TrimPad(gap[1..], p, "");
    assert gap[1..] + p + "" == gap[1..] + p;
  }

  /** The branch is the token after the last space of the first line. */
  lemma {:induction false} BranchIsLastToken(prefix: string, branch: string)
    requires ' ' !in branch
    ensures BranchOf(prefix + " " + branch) == branch
  {
    assert " " == [' '];
    SplitAround(prefix, " ", branch);
    SplitUnseparated(branch, " ");
  }

  /** Empty text does not fail: the branch is empty and no file is listed. */
  lemma {:induction false} EmptyStatus()
    ensures StatusOf("") == RepositoryStatus("", map[])
  {
  }
}
