/** `parseGitLog`: the rows of `git log` output read by a three-state machine.
    A commit line pushes a new commit; header rows fill its author, committer
    and date fields until a blank row; message rows are trimmed and joined until
    the row just before the next commit line, which is dropped. */
module LogParser {
  import opened Results
  import opened JsText

  /** One commit as `parseGitLog` builds it; a field the source never assigns is `None`. */
  datatype Commit = Commit(
    sha1: Option<string>,
    parents: seq<string>,
    refs: seq<string>,
    authorName: Option<string>,
    authorEmail: Option<string>,
    committerName: Option<string>,
    committerEmail: Option<string>,
    authorDate: Option<string>,
    commitDate: Option<string>,
    message: string)

  /** The one place the log parser throws: a `Commit:` row whose value does not
      match `([^<]+)<([^>]+)>`, so that `capture[1]` reads from `null`. */
  datatype LogError = MalformedCommitter(row: string)

  /** Which of the three inner functions the variable `parser` holds. */
  datatype Mode = AtCommitLine | InHeaders | InMessage

  /** The parser state and the commits pushed so far; the commit being filled
      in (`currentCommmit`) is the last one pushed. */
  datatype LogState = LogState(mode: Mode, commits: seq<Commit>)

  /** Outside the commit-line state there is a current commit. */
  predicate Valid(st: LogState) {
    st.mode != AtCommitLine ==> |st.commits| > 0
  }

  /** The commits no later row can change: all of them in the commit-line
      state, all but the current one otherwise. */
  function Settled(st: LogState): nat {
    if st.mode == AtCommitLine then |st.commits| else if |st.commits| > 0 then |st.commits| - 1 else 0
  }

  // ---- parseCommitLine

  /** The hashes of a commit line: the non-empty `' '`-tokens after the first
      token of the part before the first `(`. */
  function Hashes(row: string): (r: seq<string>)
    ensures "" !in r
  {
    RemoveEmpty(Split(Split(row, "(")[0], " ")[1..])
  }

  /** The decorations: the text between the first and a second `(` (or the
      end), without its last character, split on `", "`; none without a `(`. */
  function Refs(row: string): (r: seq<string>)
    ensures '(' !in row ==> r == []
  {
    SplitWithout(row, "(");
    var ss := Split(row, "(");
    if |ss| > 1 && ss[1] != "" then Split(ss[1][..|ss[1]| - 1], ", ") else []
  }

  /** The fresh commit a commit line starts; its message is still unset (`""`). */
  function ParseCommitLine(row: string): (c: Commit)
    ensures c.sha1.Some? <==> Hashes(row) != []
    ensures c.sha1.Some? ==> Hashes(row) == [c.sha1.value] + c.parents
    ensures c.sha1.None? ==> c.parents == []
    ensures c.refs == Refs(row) && c.message == ""
  {
    var sha1s := Hashes(row);
    Commit(if |sha1s| > 0 then Some(sha1s[0]) else None, if |sha1s| > 0 then sha1s[1..] else [], Refs(row),
           None, None, None, None, None, None, "")
  }

  // ---- `([^<]+)<([^>]+)>`, unanchored

  /** `t` occurs in `s` at `q`. */
  predicate OccursAt(s: string, q: nat, t: string) {
    q + |t| <= |s| && s[q..q + |t|] == t
  }

  /** What `([^<]+)` and `([^>]+)` can capture: non-empty, and free of the
      character that ends the capture. */
  predicate Captures(name: string, email: string) {
    name != [] && '<' !in name && email != [] && '>' !in email
  }

  /** The pattern's two captures when it matches starting at `p`: the first
      capture runs up to the first `<` after `p`, the second from there up to
      the first `>`, and both must be non-empty. */
  function NameEmailAt(s: string, p: nat): (r: Option<(string, string)>)
    ensures r.Some? ==> Captures(r.value.0, r.value.1) && OccursAt(s, p, r.value.0 + "<" + r.value.1 + ">")
  {
    if p < |s| && s[p] != '<' then
      match IndexOfFrom(s, '<', p)
      case None => None
      case Some(l) =>
        match IndexOfFrom(s, '>', l + 1)
        case None => None
        case Some(g) =>
          if g > l + 1 then
            SliceWithout(s, '<', p, l);
            SliceWithout(s, '>', l + 1, g);
            assert s[p..g + 1] == s[p..l] + "<" + s[l + 1..g] + ">";
            Some((s[p..l], s[l + 1..g]))
          else None
    else None
  }

  /** The leftmost match from `p` on. */
  function FirstNameEmail(s: string, p: nat): (r: Option<(string, string)>)
    ensures r.Some? ==> Captures(r.value.0, r.value.1)
    decreases |s| - p
  {
    if p >= |s| then None
    else
      match NameEmailAt(s, p)
      case Some(m) => Some(m)
      case None => FirstNameEmail(s, p + 1)
  }

  /** The captures found by `exec` on the whole string. */
  function NameEmail(s: string): (r: Option<(string, string)>)
    ensures r.Some? ==> Captures(r.value.0, r.value.1)
  {
    FirstNameEmail(s, 0)
  }

  /** `row.split(' ').slice(1).join(' ')`: everything after the first space. */
  function Argument(row: string): string {
    Join(Split(row, " ")[1..], " ")
  }

  // ---- parseHeaderLine and parseCommitMessage

  /** The fields a commit line sets, and the message, are the same in both commits. */
  predicate SameCommitLine(c: Commit, d: Commit) {
    d.sha1 == c.sha1 && d.parents == c.parents && d.refs == c.refs && d.message == c.message
  }

  /** One header row applied to the current commit, with the state that follows
      it: a blank row switches to the message; any other unknown row changes nothing. */
  function HeaderStep(c: Commit, row: string): (r: Result<(Commit, Mode), LogError>)
    ensures r.Err? <==> StartsWith(row, "Commit: ") && NameEmail(Argument(row)).None?
    ensures r.Err? ==> r.error == MalformedCommitter(row)
    ensures r.Ok? ==> r.value.1 == (if AllSpace(row) then InMessage else InHeaders)
    ensures r.Ok? ==> SameCommitLine(c, r.value.0)
    ensures r.Ok? && AllSpace(row) ==> r.value.0 == c
  {
    TrimShape(row);
    PrefixNotBlank(row, "Author: ");
    PrefixNotBlank(row, "Commit: ");
    PrefixNotBlank(row, "AuthorDate: ");
    PrefixNotBlank(row, "CommitDate: ");
    if StartsWith(row, "Author: ") then
      assert row[..8][0] == 'A';
      var author := Argument(row);
      match NameEmail(author)
      case Some(m) => Ok((c.(authorName := Some(Trim(m.0)), authorEmail := Some(Trim(m.1))), InHeaders))
      case None => Ok((c.(authorName := Some(author)), InHeaders))
    else if StartsWith(row, "Commit: ") then
      match NameEmail(Argument(row))
      case None => Err(MalformedCommitter(row))
      case Some(m) => Ok((c.(committerName := Some(Trim(m.0)), committerEmail := Some(Trim(m.1))), InHeaders))
    else if StartsWith(row, "AuthorDate: ") then Ok((c.(authorDate := Some(Trim(row[12..]))), InHeaders))
    else if StartsWith(row, "CommitDate: ") then Ok((c.(commitDate := Some(Trim(row[12..]))), InHeaders))
    else if Trim(row) == "" then Ok((c, InMessage))
    else Ok((c, InHeaders))
  }

  /** A row that starts with a word is not blank. */
  lemma {:induction false} PrefixNotBlank(row: string, prefix: string)
    requires prefix != [] && !IsSpace(prefix[0])
    ensures StartsWith(row, prefix) ==> !AllSpace(row)
  {
    if StartsWith(row, prefix) {
      assert row[0] == row[..|prefix|][0];
    }
  }

  /** `rows[index + 1] && rows[index + 1].indexOf('commit ') == 0`: the next row
      starts a commit; a blank row or the end never does. */
  predicate NextIsCommit(next: Option<string>): (b: bool)
    ensures b ==> next.Some? && !AllSpace(next.value)
  {
    if next.Some? then PrefixNotBlank(next.value, "commit "); StartsWith(next.value, "commit ") else false
  }

  /** A message row appended: after a newline when the message so far is
      non-empty. The message so far is kept in front, the trimmed row comes
      last, and only a blank row on an empty message leaves it empty. */
  function AppendMessage(message: string, row: string): (r: string)
    ensures r == "" <==> message == "" && AllSpace(row)
    ensures message != "" ==> StartsWith(r, message + "\n")
    ensures |Trim(row)| <= |r| && r[|r| - |Trim(row)|..] == Trim(row)
  {
    TrimShape(row);
    (if message != "" then message + "\n" else "") + Trim(row)
  }

  /** One row through the function `parser` holds, with the row after it for the lookahead. */
  function Step(st: LogState, row: string, next: Option<string>): (r: Result<LogState, LogError>)
    requires Valid(st)
    ensures r.Ok? ==> Valid(r.value)
    ensures r.Ok? ==> |r.value.commits| == |st.commits| + (if st.mode == AtCommitLine then 1 else 0)
    ensures r.Ok? ==> r.value.commits[..Settled(st)] == st.commits[..Settled(st)]
    ensures r.Err? ==> st.mode == InHeaders && r.error == MalformedCommitter(row) && StartsWith(row, "Commit: ")
  {
    match st.mode
    case AtCommitLine => Ok(LogState(InHeaders, st.commits + [ParseCommitLine(row)]))
    case InHeaders =>
      var last := |st.commits| - 1;
      (match HeaderStep(st.commits[last], row)
       case Err(e) => Err(e)
       case Ok(h) => Ok(LogState(h.1, st.commits[last := h.0])))
    case InMessage =>
      if NextIsCommit(next) then Ok(LogState(AtCommitLine, st.commits))
      else
        var last := |st.commits| - 1;
        Ok(LogState(InMessage, st.commits[last := st.commits[last].(message := AppendMessage(st.commits[last].message, row))]))
  }

  /** The `forEach` over the rows from `st` on; the first error aborts. */
  function Run(rows: seq<string>, st: LogState): (r: Result<LogState, LogError>)
    requires Valid(st)
    ensures r.Ok? ==> Valid(r.value)
    ensures r.Ok? ==> |r.value.commits| >= |st.commits| + (if rows != [] && st.mode == AtCommitLine then 1 else 0)
    ensures r.Err? ==> r.error.row in rows && StartsWith(r.error.row, "Commit: ")
    decreases |rows|
  {
    if rows == [] then Ok(st)
    else
      assert forall x :: x in rows[1..] ==> x in rows;
      match Step(st, rows[0], if |rows| > 1 then Some(rows[1]) else None)
      case Err(e) => Err(e)
      case Ok(next) => Run(rows[1..], next)
  }

  /** The final `forEach`: every message trimmed; nothing but the messages changes. */
  function Finish(commits: seq<Commit>): (r: seq<Commit>)
    ensures |r| == |commits|
    ensures forall i :: 0 <= i < |r| ==> r[i].(message := commits[i].message) == commits[i]
  {
    seq(|commits|, i requires 0 <= i < |commits| => commits[i].(message := Trim(commits[i].message)))
  }

  /** What `parseGitLog(data)` returns, or the error it throws. */
  function LogOf(data: string): (r: Result<seq<Commit>, LogError>)
    ensures r.Ok? ==> |r.value| >= 1
    ensures r.Err? ==> r.error.row in Split(data, EOL) && StartsWith(r.error.row, "Commit: ")
  {
    match Run(Split(data, EOL), LogState(AtCommitLine, []))
    case Err(e) => Err(e)
    case Ok(st) => Ok(Finish(st.commits))
  }

  /** The `forEach` over the rows with the function `parser` holds, from the
      commit-line state and no commits. */
  method ReadRows(rows: seq<string>) returns (r: Result<LogState, LogError>)
    ensures r == Run(rows, LogState(AtCommitLine, []))
  {
    var st := LogState(AtCommitLine, []);
    var index := 0;
    while index < |rows|
      invariant 0 <= index <= |rows|
      invariant Valid(st)
      invariant Run(rows, LogState(AtCommitLine, [])) == Run(rows[index..], st)
    {
      var next := if index + 1 < |rows| then Some(rows[index + 1]) else None;
      RunFrom(rows, index, st);
      var s := ParseRow(st, rows[index], next);
      if s.Err? {
        return Err(s.error);
      }
      st := s.value;
      index := index + 1;
    }
    assert rows[index..] == [];
    r := Ok(st);
  }

  /** The rows from `index` on: the row at `index` first, the row after it as lookahead. */
  lemma {:induction false} RunFrom(rows: seq<string>, index: nat, st: LogState)
    requires index < |rows| && Valid(st)
    ensures Run(rows[index..], st)
         == match Step(st, rows[index], if index + 1 < |rows| then Some(rows[index + 1]) else None)
            case Err(e) => Err(e)
            case Ok(s) => Run(rows[index + 1..], s)
  {
    assert rows[index..][0] == rows[index] && rows[index..][1..] == rows[index + 1..];
    assert index + 1 < |rows| ==> rows[index..][1] == rows[index + 1];
  }

  /** One call of the function `parser` holds: the commit line pushes a new
      commit, a header row updates the current one, a message row extends its
      message unless the next row starts a commit. */
  method ParseRow(st: LogState, row: string, next: Option<string>) returns (r: Result<LogState, LogError>)
    requires Valid(st)
    ensures r == Step(st, row, next)
  {
    var commits := st.commits;
    match st.mode {
      case AtCommitLine =>
        r := Ok(LogState(InHeaders, commits + [ParseCommitLine(row)]));
      case InHeaders =>
        var h := HeaderStep(commits[|commits| - 1], row);
        if h.Err? {
          return Err(h.error);
        }
        r := Ok(LogState(h.value.1, commits[|commits| - 1 := h.value.0]));
      case InMessage =>
        if next.Some? && StartsWith(next.value, "commit ") {
          r := Ok(LogState(AtCommitLine, commits));
        } else {
          var last := |commits| - 1;
          r := Ok(LogState(InMessage, commits[last := commits[last].(message := AppendMessage(commits[last].message, row))]));
        }
    }
  }

  /** The final `forEach`, rewriting each message in place. */
  method TrimMessages(pushed: seq<Commit>) returns (commits: seq<Commit>)
    ensures commits == Finish(pushed)
  {
    commits := pushed;
    var j := 0;
    while j < |commits|
      invariant 0 <= j <= |commits| == |pushed|
      invariant forall k :: 0 <= k < j ==> commits[k] == pushed[k].(message := Trim(pushed[k].message))
      invariant forall k :: j <= k < |commits| ==> commits[k] == pushed[k]
    {
      commits := commits[j := commits[j].(message := Trim(commits[j].message))];
      j := j + 1;
    }
  }

  method ParseLog(data: string) returns (result: Result<seq<Commit>, LogError>)
    ensures result == LogOf(data)
  {
    var rows := Split(data, EOL);
    var r := ReadRows(rows);
    if r.Err? {
      return Err(r.error);
    }
    var commits := TrimMessages(r.value.commits);
    result := Ok(commits);
  }

  // ---- properties

  /** Rows never change a commit that is settled: the commits before the
      current one, and all of them once the next commit line is due. */
  lemma {:induction false} RunKeepsSettled(rows: seq<string>, st: LogState)
    requires Valid(st) && Run(rows, st).Ok?
    ensures Settled(st) <= |Run(rows, st).value.commits|
    ensures Run(rows, st).value.commits[..Settled(st)] == st.commits[..Settled(st)]
    decreases |rows|
  {
    if rows != [] {
      var next := Step(st, rows[0], if |rows| > 1 then Some(rows[1]) else None).value;
      assert Settled(st) <= Settled(next);
      RunKeepsSettled(rows[1..], next);
      var r := Run(rows[1..], next).value.commits;
      assert r[..Settled(st)] == r[..Settled(next)][..Settled(st)];
      assert st.commits[..Settled(st)] == next.commits[..Settled(next)][..Settled(st)];
    }
  }

  /** The first token of a commit line holds neither separator. */
  lemma {:induction false} CommitKeyword()
    ensures "commit " == "commit" + " " && ' ' !in "commit" && '(' !in "commit "
  {
  }

  /** The tokens after `commit ` are the hashes, with or without a space after them. */
  lemma {:induction false} HashTokens(hs: seq<string>, line: string)
    requires hs != [] && forall i :: 0 <= i < |hs| ==> hs[i] != [] && ' ' !in hs[i]
    requires line == "commit " + Join(hs, " ") || line == "commit " + Join(hs, " ") + " "
    ensures RemoveEmpty(Split(line, " ")[1..]) == hs
  {
    var hashes := Join(hs, " ");
    CommitKeyword();
    RemoveEmptyKeeps(hs);
    if line == "commit " + hashes {
      assert line == "commit" + " " + hashes;
      SplitSeparated("commit", " ", hashes);
      SplitJoin(hs, " ");
    } else {
      assert line == "commit" + " " + (hashes + " " + "");
      SplitSeparated("commit", " ", hashes + " " + "");
      SplitJoinRest(hs, " ", "");
      RemoveEmptyAppend(hs, [""]);
      assert RemoveEmpty([""]) == [];
      assert hs + [] == hs;
    }
  }

  /** The part before a `(` and the decorations after it. */
  lemma {:induction false} DecoratedSplit(head: string, refs: seq<string>)
    requires '(' !in head
    requires refs != [] && forall i :: 0 <= i < |refs| ==> ',' !in refs[i] && '(' !in refs[i]
    ensures Split(head + " (" + Join(refs, ", ") + ")", "(")[0] == head + " "
    ensures Refs(head + " (" + Join(refs, ", ") + ")") == refs
  {
    var joined := Join(refs, ", ");
    var row := head + " (" + joined + ")";
    JoinFree(refs, ", ", '(');
    assert row == (head + " ") + "(" + (joined + ")");
    SplitSeparated(head + " ", "(", joined + ")");
    SplitUnseparated(joined + ")", "(");
    assert Split(row, "(") == [head + " ", joined + ")"];
    assert (joined + ")")[..|joined|] == joined;
    SplitJoin(refs, ", ");
  }

  /** A commit line `commit <sha1> <parents…>`, optionally followed by ` (<refs>)`,
      gives back its hash, its parents in order and its decorations; without a
      `(` there are no decorations. */
  lemma {:induction false} CommitLineRoundTrip(sha1: string, parents: seq<string>, refs: seq<string>, decorated: bool)
    requires sha1 != [] && ' ' !in sha1 && '(' !in sha1
    requires forall i :: 0 <= i < |parents| ==> parents[i] != [] && ' ' !in parents[i] && '(' !in parents[i]
    requires decorated ==> refs != [] && forall i :: 0 <= i < |refs| ==> ',' !in refs[i] && '(' !in refs[i]
    ensures var hashes := Join([sha1] + parents, " ");
      var row := "commit " + hashes + (if decorated then " (" + Join(refs, ", ") + ")" else "");
      var c := ParseCommitLine(row);
      c.sha1 == Some(sha1) && c.parents == parents && c.refs == (if decorated then refs else [])
  {
    var hs := [sha1] + parents;
    assert forall i :: 0 <= i < |hs| ==> hs[i] != [] && ' ' !in hs[i] && '(' !in hs[i] by {
      forall i | 0 <= i < |hs| ensures hs[i] != [] && ' ' !in hs[i] && '(' !in hs[i] {
        if i > 0 { assert hs[i] == parents[i - 1]; }
      }
    }
    JoinFree(hs, " ", '(');
    var head := "commit " + Join(hs, " ");
    var row := head + (if decorated then " (" + Join(refs, ", ") + ")" else "");
    if decorated {
      assert row == head + " (" + Join(refs, ", ") + ")";
      DecoratedRow(hs, refs, head, row);
    } else {
      assert row == head;
      PlainRow(hs, row);
    }
  }

  /** A decorated commit line built from its hashes and decorations. */
  lemma {:induction false} DecoratedRow(hs: seq<string>, refs: seq<string>, head: string, row: string)
    requires hs != [] && forall i :: 0 <= i < |hs| ==> hs[i] != [] && ' ' !in hs[i]
    requires head == "commit " + Join(hs, " ") && '(' !in Join(hs, " ")
    requires refs != [] && forall i :: 0 <= i < |refs| ==> ',' !in refs[i] && '(' !in refs[i]
    requires row == head + " (" + Join(refs, ", ") + ")"
    ensures Hashes(row) == hs && Refs(row) == refs
  {
    assert '(' !in head;
    DecoratedSplit(head, refs);
    HashTokens(hs, head + " ");
  }

  /** A commit line without decorations built from its hashes. */
  lemma {:induction false} PlainRow(hs: seq<string>, row: string)
    requires hs != [] && forall i :: 0 <= i < |hs| ==> hs[i] != [] && ' ' !in hs[i]
    requires row == "commit " + Join(hs, " ") && '(' !in Join(hs, " ")
    ensures Hashes(row) == hs && Refs(row) == []
  {
    NoParen(Join(hs, " "), row);
    SplitUnseparated(row, "(");
    HashTokens(hs, row);
  }

  lemma {:induction false} NoParen(hashes: string, row: string)
    requires row == "commit " + hashes && '(' !in hashes
    ensures "("[0] !in row
  {
    CommitKeyword();
    NotInAppend('(', "commit ", hashes);
  }

  /** A character in none of the pieces nor the separator is not in their join. */
  lemma {:induction false} JoinFree(parts: seq<string>, sep: string, c: char)
    requires c !in sep && forall i :: 0 <= i < |parts| ==> c !in parts[i]
    ensures c !in Join(parts, sep)
    decreases |parts|
  {
    if |parts| > 1 {
      JoinFree(parts[1..], sep, c);
    }
  }

  /** `name<email>` followed by anything gives the two captures when the name has
      no `<` and the email no `>`. */
  lemma {:induction false} NameEmailRoundTrip(name: string, email: string, rest: string)
    requires name != [] && '<' !in name && email != [] && '>' !in email
    ensures NameEmail(name + "<" + email + ">" + rest) == Some((name, email))
  {
    var s := name + "<" + email + ">" + rest;
    var l, g := |name|, |name| + 1 + |email|;
    assert s[l] == '<' && s[g] == '>';
    assert forall j :: 0 <= j < l ==> s[j] == name[j];
    assert forall j :: l + 1 <= j < g ==> s[j] == email[j - l - 1];
    assert IndexOfFrom(s, '<', 0) == Some(l);
    assert IndexOfFrom(s, '>', l + 1) == Some(g);
    assert s[..l] == name && s[l + 1..g] == email;
  }

  /** Without a `<` the pattern cannot match. */
  lemma {:induction false} NoBracketNoMatch(s: string, p: nat)
    requires '<' !in s
    ensures FirstNameEmail(s, p) == None
    decreases |s| - p
  {
    if p < |s| {
      assert IndexOfFrom(s, '<', p) == None;
      NoBracketNoMatch(s, p + 1);
    }
  }

  /** What the pattern captures really is `name<email>` somewhere in the string. */
  lemma {:induction false} NameEmailFound(s: string, p: nat)
    requires FirstNameEmail(s, p).Some?
    ensures var (name, email) := FirstNameEmail(s, p).value;
      Captures(name, email) && exists q :: p <= q && OccursAt(s, q, name + "<" + email + ">")
    decreases |s| - p
  {
    match NameEmailAt(s, p)
    case Some(m) =>
      assert OccursAt(s, p, m.0 + "<" + m.1 + ">");
    case None =>
      NameEmailFound(s, p + 1);
  }

  /** Conversely, a `name<email>` at or after `p` is found: the pattern
      matches, though perhaps at an earlier place. */
  lemma {:induction false} NameEmailPresent(s: string, p: nat, q: nat, name: string, email: string)
    requires p <= q && OccursAt(s, q, name + "<" + email + ">") && Captures(name, email)
    ensures FirstNameEmail(s, p).Some?
    decreases q - p
  {
    if p < q && NameEmailAt(s, p).None? {
      NameEmailPresent(s, p + 1, q, name, email);
    } else if p == q {
      NameEmailAtOccurrence(s, q, name, email);
    }
  }

  /** An occurrence of `name<email>` is a match at its own place, with exactly
      those captures. */
  lemma {:induction false} NameEmailAtOccurrence(s: string, q: nat, name: string, email: string)
    requires OccursAt(s, q, name + "<" + email + ">") && Captures(name, email)
    ensures NameEmailAt(s, q) == Some((name, email))
  {
    var l, g := q + |name|, q + |name| + 1 + |email|;
    assert name + "<" + email + ">" == name + ['<'] + email + ['>'];
    PiecesAt(s, q, name, '<', email, '>');
    assert s[q] == name[0];
    IndexOfAt(s, '<', q, l);
    IndexOfAt(s, '>', l + 1, g);
  }

  /** The match found is the leftmost: it is a match at some place from `p`
      on, and there is none between `p` and that place. */
  lemma {:induction false} NameEmailLeftmost(s: string, p: nat)
    requires FirstNameEmail(s, p).Some?
    ensures exists q :: && p <= q < |s| && NameEmailAt(s, q) == FirstNameEmail(s, p)
                        && forall j :: p <= j < q ==> NameEmailAt(s, j).None?
    decreases |s| - p
  {
    if NameEmailAt(s, p).Some? {
      assert p <= p < |s| && NameEmailAt(s, p) == FirstNameEmail(s, p);
    } else {
      assert FirstNameEmail(s, p) == FirstNameEmail(s, p + 1);
      NameEmailLeftmost(s, p + 1);
      var q :| && p + 1 <= q < |s| && NameEmailAt(s, q) == FirstNameEmail(s, p + 1)
               && forall j :: p + 1 <= j < q ==> NameEmailAt(s, j).None?;
      NoMatchBefore(s, p, q);
    }
  }

  lemma {:induction false} NoMatchBefore(s: string, p: nat, q: nat)
    requires NameEmailAt(s, p).None? && forall j :: p + 1 <= j < q ==> NameEmailAt(s, j).None?
    ensures forall j :: p <= j < q ==> NameEmailAt(s, j).None?
  {
  }

  /** `Argument` is everything after the first space. */
  lemma {:induction false} ArgumentAfterWord(word: string, tail: string)
    requires ' ' !in word
    ensures Argument(word + " " + tail) == tail
  {
    SplitTailJoin(word, " ", tail);
  }

  /** `Author: <name> <<email>>` sets both author fields, trimmed, and nothing else. */
  lemma {:induction false} AuthorHeaderFields(c: Commit, name: string, email: string)
    requires name != [] && '<' !in name && !IsSpace(name[0]) && !IsSpace(name[|name| - 1])
    requires email != [] && '>' !in email && !IsSpace(email[0]) && !IsSpace(email[|email| - 1])
    ensures HeaderStep(c, "Author: " + name + " <" + email + ">")
         == Ok((c.(authorName := Some(name), authorEmail := Some(email)), InHeaders))
  {
    var row := "Author: " + name + " <" + email + ">";
    var author := name + " <" + email + ">";
    AuthorArgument(author, row);
    NameEmailRoundTrip(name + " ", email, "");
    AuthorValueShape(name, email);
    TrimPad("", name, " ");
    TrimPad("", email, "");
  }

  lemma {:induction false} AuthorValueShape(name: string, email: string)
    ensures (name + " ") + "<" + email + ">" + "" == name + " <" + email + ">"
    ensures "" + name + " " == name + " " && "" + email + "" == email
  {
  }

  /** The value of an `Author: ` row. */
  lemma {:induction false} AuthorArgument(author: string, row: string)
    requires row == "Author: " + author
    ensures StartsWith(row, "Author: ") && Argument(row) == author
  {
    assert row[..8] == "Author: ";
    assert row == "Author:" + " " + author;
    ArgumentAfterWord("Author:", author);
  }

  /** Without `<`, the whole value after `Author: ` becomes the name and the email stays as it was. */
  lemma {:induction false} AuthorWithoutEmail(c: Commit, author: string)
    requires '<' !in author
    ensures HeaderStep(c, "Author: " + author) == Ok((c.(authorName := Some(author)), InHeaders))
  {
    AuthorArgument(author, "Author: " + author);
    NoBracketNoMatch(author, 0);
  }

  /** A `Commit:` row without `<email>` is the error the source throws. */
  lemma {:induction false} CommitterWithoutEmail(c: Commit, committer: string)
    requires '<' !in committer
    ensures HeaderStep(c, "Commit: " + committer) == Err(MalformedCommitter("Commit: " + committer))
  {
    var row := "Commit: " + committer;
    assert row[..8] == "Commit: ";
    assert row[..8] != "Author: ";
    assert row == "Commit:" + " " + committer;
    ArgumentAfterWord("Commit:", committer);
    NoBracketNoMatch(committer, 0);
  }

  /** The two date headers keep their value trimmed. */
  lemma {:induction false} DateHeaders(c: Commit, pad: string, date: string)
    requires AllSpace(pad) && (date != [] ==> !IsSpace(date[0]) && !IsSpace(date[|date| - 1]))
    ensures HeaderStep(c, "AuthorDate: " + pad + date) == Ok((c.(authorDate := Some(date)), InHeaders))
    ensures HeaderStep(c, "CommitDate: " + pad + date) == Ok((c.(commitDate := Some(date)), InHeaders))
  {
    var a, d := "AuthorDate: " + pad + date, "CommitDate: " + pad + date;
    assert a[..8][6] == 'D' && a[..8][0] == 'A' && a[..12] == "AuthorDate: ";
    assert d[..8][6] == 'D' && d[..8][0] == 'C' && d[..12][0] == 'C' && d[..12] == "CommitDate: ";
    assert a[12..] == pad + date + "" && d[12..] == pad + date + "";
    TrimPad(pad, date, "");
  }

  /** A row with none of the four known prefixes leaves the commit as it is; it
      switches to the message exactly when it is blank. */
  lemma {:induction false} OtherHeaderRow(c: Commit, row: string)
    requires !StartsWith(row, "Author: ") && !StartsWith(row, "Commit: ")
    requires !StartsWith(row, "AuthorDate: ") && !StartsWith(row, "CommitDate: ")
    ensures HeaderStep(c, row) == Ok((c, if AllSpace(row) then InMessage else InHeaders))
  {
    TrimShape(row);
  }

  /** The message rows trimmed. */
  function Trimmed(rows: seq<string>): (ts: seq<string>)
    ensures |ts| == |rows|
  {
    seq(|rows|, i requires 0 <= i < |rows| => Trim(rows[i]))
  }

  /** The message after some rows: each row trimmed, joined with `"\n"`, after
      the message so far (when it is non-empty). */
  function Joined(message: string, rows: seq<string>): string {
    if rows == [] then message
    else if message == "" then Join(Trimmed(rows), "\n") else message + "\n" + Join(Trimmed(rows), "\n")
  }

  /** Message rows none of which but the first starts a commit line, followed
      by a row that does not either (or by nothing), are trimmed and joined
      into the current commit's message. Blank rows are kept as empty lines;
      only a blank first row on a still empty message is lost. */
  lemma {:induction false} MessageRowsJoined(rows: seq<string>, tail: seq<string>, init: seq<Commit>, c: Commit)
    requires rows != [] && (c.message != "" || Trim(rows[0]) != "")
    requires forall i :: 1 <= i < |rows| ==> !StartsWith(rows[i], "commit ")
    requires tail != [] ==> !StartsWith(tail[0], "commit ")
    ensures Run(rows + tail, LogState(InMessage, init + [c]))
         == Run(tail, LogState(InMessage, init + [c.(message := Joined(c.message, rows))]))
    decreases |rows|
  {
    var first := AppendMessage(c.message, rows[0]);
    TrimShape(rows[0]);
    assert first != "";
    FirstMessageRow(rows, tail, init, c);
    if |rows| == 1 {
      assert rows[1..] + tail == tail;
      assert Trimmed(rows) == [Trim(rows[0])];
      assert Joined(c.message, rows) == first;
    } else {
      NoCommitAfterFirst(rows);
      MessageRowsJoined(rows[1..], tail, init, c.(message := first));
      JoinedCons(c.message, rows);
    }
  }

  /** The rows after the first keep the condition on the rows after their first. */
  lemma {:induction false} NoCommitAfterFirst(rows: seq<string>)
    requires |rows| > 1 && forall i :: 1 <= i < |rows| ==> !StartsWith(rows[i], "commit ")
    ensures forall i :: 1 <= i < |rows[1..]| ==> !StartsWith(rows[1..][i], "commit ")
  {
    forall i | 1 <= i < |rows[1..]|
      ensures !StartsWith(rows[1..][i], "commit ")
    {
      assert rows[1..][i] == rows[i + 1];
    }
  }

  /** The first of some message rows when the row after it is no commit line. */
  lemma {:induction false} FirstMessageRow(rows: seq<string>, tail: seq<string>, init: seq<Commit>, c: Commit)
    requires rows != []
    requires |rows| > 1 ==> !StartsWith(rows[1], "commit ")
    requires tail != [] ==> !StartsWith(tail[0], "commit ")
    ensures Run(rows + tail, LogState(InMessage, init + [c]))
         == Run(rows[1..] + tail, LogState(InMessage, init + [c.(message := AppendMessage(c.message, rows[0]))]))
  {
    var all := rows + tail;
    assert all[0] == rows[0] && all[1..] == rows[1..] + tail;
    assert |all| > 1 ==> !StartsWith(all[1], "commit ") by {
      if |rows| > 1 {
        assert all[1] == rows[1];
      } else if |all| > 1 {
        assert all[1] == tail[0];
      }
    }
    MessageStep(all, init, c);
  }

  /** A message row not followed by a commit line, seen from the whole run. */
  lemma {:induction false} MessageStep(rows: seq<string>, init: seq<Commit>, c: Commit)
    requires rows != [] && (|rows| > 1 ==> !StartsWith(rows[1], "commit "))
    ensures Run(rows, LogState(InMessage, init + [c]))
         == Run(rows[1..], LogState(InMessage, init + [c.(message := AppendMessage(c.message, rows[0]))]))
  {
    var c' := c.(message := AppendMessage(c.message, rows[0]));
    assert (init + [c])[|init| := c'] == init + [c'];
    RunStep(rows, LogState(InMessage, init + [c]), LogState(InMessage, init + [c']));
  }

  /** Appending the first row, then joining the others, joins them all. */
  lemma {:induction false} JoinedCons(message: string, rows: seq<string>)
    requires |rows| > 1 && (message != "" || Trim(rows[0]) != "")
    ensures Joined(AppendMessage(message, rows[0]), rows[1..]) == Joined(message, rows)
  {
    var ts := Trimmed(rows);
    assert ts[0] == Trim(rows[0]);
    assert ts[1..] == Trimmed(rows[1..]);
    var j := Join(ts[1..], "\n");
    assert Join(ts, "\n") == ts[0] + "\n" + j;
    if message == "" {
      assert AppendMessage(message, rows[0]) == ts[0];
    } else {
      assert AppendMessage(message, rows[0]) == message + "\n" + ts[0];
      RegroupSeparator(message, "\n", ts[0], j);
    }
  }

  /** In the message state, the row before a commit line is dropped and the
      commit line is read as the start of the next commit. */
  lemma {:induction false} RowBeforeCommitDropped(row: string, line: string, more: seq<string>, commits: seq<Commit>)
    requires commits != [] && StartsWith(line, "commit ")
    ensures Run([row, line] + more, LogState(InMessage, commits))
         == Run(more, LogState(InHeaders, commits + [ParseCommitLine(line)]))
  {
    var rows := [row, line] + more;
    assert rows[1] == line && rows[1..][0] == line && rows[1..][1..] == more;
    assert Run(rows, LogState(InMessage, commits)) == Run(rows[1..], LogState(AtCommitLine, commits));
  }

  /** The final messages have no whitespace at either end, and every other
      field is as the rows left it. */
  lemma {:induction false} FinishTrims(commits: seq<Commit>)
    ensures |Finish(commits)| == |commits|
    ensures forall i :: 0 <= i < |commits| ==>
      var c := Finish(commits)[i];
      && c.(message := commits[i].message) == commits[i]
      && c.message == Trim(commits[i].message)
      && (c.message != [] ==> !IsSpace(c.message[0]) && !IsSpace(c.message[|c.message| - 1]))
  {
    forall i | 0 <= i < |commits| {
      TrimShape(commits[i].message);
    }
  }

  // ---- logs of several commits

  /** One commit as `git log` prints it: the commit line, the header rows, and
      the message rows after the blank row that ends the headers. */
  datatype Printed = Printed(line: string, headers: seq<string>, message: seq<string>)

  /** A header row read without error that keeps the header state. */
  predicate HeaderRow(row: string) {
    !AllSpace(row) && (StartsWith(row, "Commit: ") ==> NameEmail(Argument(row)).Some?)
  }

  /** A printed commit the parser reads as one record: it starts with a commit
      line, its headers are read without error, its message starts with a
      row that is not blank, and no later message row starts a commit line. */
  predicate WellPrinted(e: Printed) {
    && StartsWith(e.line, "commit ")
    && (forall i :: 0 <= i < |e.headers| ==> HeaderRow(e.headers[i]))
    && e.message != [] && Trim(e.message[0]) != ""
    && (forall i :: 1 <= i < |e.message| ==> !StartsWith(e.message[i], "commit "))
  }

  /** No row of a printed commit holds a line break. */
  predicate OneLine(e: Printed) {
    && '\n' !in e.line
    && (forall h :: h in e.headers ==> '\n' !in h)
    && (forall m :: m in e.message ==> '\n' !in m)
  }

  /** The rows of a printed commit, with the blank row `git log` puts after its message. */
  function PrintedRows(e: Printed): seq<string> {
    [e.line] + (e.headers + ([""] + (e.message + [""])))
  }

  /** The rows of printed commits, one after the other. */
  function LogRows(es: seq<Printed>): seq<string>
    decreases |es|
  {
    if es == [] then [] else PrintedRows(es[0]) + LogRows(es[1..])
  }

  /** The current commit after some header rows: only the author, committer
      and date fields can change. */
  function ApplyHeaders(c: Commit, rows: seq<string>): (d: Commit)
    ensures SameCommitLine(c, d)
    decreases |rows|
  {
    if rows == [] then c
    else
      match HeaderStep(c, rows[0])
      case Err(_) => c
      case Ok(h) => ApplyHeaders(h.0, rows[1..])
  }

  /** The commit a printed commit's line and headers build. */
  function Opened(e: Printed): Commit {
    ApplyHeaders(ParseCommitLine(e.line), e.headers)
  }

  /** The commit a printed commit's rows build, its message rows joined. */
  function Unfinished(e: Printed): Commit {
    Opened(e).(message := Joined("", e.message))
  }

  /** The commits as the rows leave them, before the final trim: every message
      is its rows joined, and the last one also keeps the newline the empty
      last row adds. */
  function Pending(es: seq<Printed>): (cs: seq<Commit>)
    ensures |cs| == |es|
    decreases |es|
  {
    if es == [] then []
    else
      var c := Unfinished(es[0]);
      if |es| == 1 then [c.(message := c.message + "\n")] else [c] + Pending(es[1..])
  }

  /** Header rows that are read without error, followed by anything, fill in
      the current commit one after the other. */
  lemma {:induction false} HeaderRowsRun(rows: seq<string>, tail: seq<string>, init: seq<Commit>, c: Commit)
    requires forall i :: 0 <= i < |rows| ==> HeaderRow(rows[i])
    ensures Run(rows + tail, LogState(InHeaders, init + [c])) == Run(tail, LogState(InHeaders, init + [ApplyHeaders(c, rows)]))
    decreases |rows|
  {
    if rows == [] {
      assert rows + tail == tail;
    } else {
      var all := rows + tail;
      assert all[0] == rows[0] && all[1..] == rows[1..] + tail;
      var h := HeaderStep(c, rows[0]);
      assert HeaderRow(rows[0]);
      assert (init + [c])[|init|] == c && (init + [c])[..|init|] == init;
      HeaderRowRun(all, init + [c], h.value.0, InHeaders);
      HeaderRowsTail(rows);
      HeaderRowsRun(rows[1..], tail, init, h.value.0);
    }
  }

  lemma {:induction false} HeaderRowsTail(rows: seq<string>)
    requires rows != [] && forall i :: 0 <= i < |rows| ==> HeaderRow(rows[i])
    ensures forall i :: 0 <= i < |rows[1..]| ==> HeaderRow(rows[1..][i])
  {
    forall i | 0 <= i < |rows[1..]|
      ensures HeaderRow(rows[1..][i])
    {
      assert rows[1..][i] == rows[i + 1];
    }
  }

  /** The rows of a printed commit and what follows, regrouped from the front. */
  lemma {:induction false} PrintedRowsThen(e: Printed, more: seq<string>)
    ensures PrintedRows(e) + more == [e.line] + (e.headers + ([""] + (e.message + ([""] + more))))
  {
    var z := e.message + [""];
    var y := [""] + z;
    var x := e.headers + y;
    AppendAssoc([e.line], x, more);
    AppendAssoc(e.headers, y, more);
    AppendAssoc([""], z, more);
    AppendAssoc(e.message, [""], more);
  }

  /** The commit line, the headers and the blank row of a printed commit open
      its record and leave the parser in the message state. */
  lemma {:induction false} PrintedOpens(e: Printed, more: seq<string>, init: seq<Commit>)
    requires forall i :: 0 <= i < |e.headers| ==> HeaderRow(e.headers[i])
    ensures Run(PrintedRows(e) + more, LogState(AtCommitLine, init))
         == Run(e.message + ([""] + more), LogState(InMessage, init + [Opened(e)]))
  {
    var body := e.message + ([""] + more);
    var t := [""] + body;
    var rows := [e.line] + (e.headers + t);
    PrintedRowsThen(e, more);
    assert rows[0] == e.line && rows[1..] == e.headers + t;
    CommitLineRow(rows, init);
    HeaderRowsRun(e.headers, t, init, ParseCommitLine(e.line));
    var o := Opened(e);
    BlankHeaderRow(o);
    assert t[0] == "" && t[1..] == body;
    assert (init + [o])[|init|] == o && (init + [o])[..|init|] == init;
    HeaderRowRun(t, init + [o], o, InMessage);
  }

  /** The rows of printed commits start with the first commit line. */
  lemma {:induction false} LogRowsHead(es: seq<Printed>)
    requires es != []
    ensures LogRows(es) != [] && LogRows(es)[0] == es[0].line
  {
    assert PrintedRows(es[0])[0] == es[0].line;
  }

  /** A message built from rows whose first is not blank is not empty. */
  lemma {:induction false} JoinedNotEmpty(rows: seq<string>)
    requires rows != [] && Trim(rows[0]) != ""
    ensures Joined("", rows) != ""
  {
    var ts := Trimmed(rows);
    assert ts[0] == Trim(rows[0]);
    if |ts| > 1 {
      assert Join(ts, "\n") == ts[0] + "\n" + Join(ts[1..], "\n");
    }
  }

  /** The rows of printed commits run from the commit-line state push one
      record per commit line, with its message rows joined. */
  lemma {:induction false} RunPrinted(es: seq<Printed>, init: seq<Commit>)
    requires es != [] && forall i :: 0 <= i < |es| ==> WellPrinted(es[i])
    ensures Run(LogRows(es), LogState(AtCommitLine, init)) == Ok(LogState(InMessage, init + Pending(es)))
    decreases |es|
  {
    if |es| == 1 {
      RunOnePrinted(es, init);
    } else {
      RunPrintedCons(es, init);
      RunPrinted(es[1..], init + [Unfinished(es[0])]);
      PendingCons(es, init);
    }
  }

  lemma {:induction false} PendingCons(es: seq<Printed>, init: seq<Commit>)
    requires |es| > 1
    ensures init + Pending(es) == init + [Unfinished(es[0])] + Pending(es[1..])
  {
    PendingTail(es);
  }

  lemma {:induction false} RunOnePrinted(es: seq<Printed>, init: seq<Commit>)
    requires |es| == 1 && WellPrinted(es[0])
    ensures Run(LogRows(es), LogState(AtCommitLine, init)) == Ok(LogState(InMessage, init + Pending(es)))
  {
    assert LogRows(es) == PrintedRows(es[0]) + [];
    RunLastPrinted(es[0], init);
  }

  /** The first of several printed commits, seen from the whole run. */
  lemma {:induction false} RunPrintedCons(es: seq<Printed>, init: seq<Commit>)
    requires |es| > 1 && forall i :: 0 <= i < |es| ==> WellPrinted(es[i])
    ensures forall i :: 0 <= i < |es[1..]| ==> WellPrinted(es[1..][i])
    ensures Run(LogRows(es), LogState(AtCommitLine, init))
         == Run(LogRows(es[1..]), LogState(AtCommitLine, init + [Unfinished(es[0])]))
  {
    assert WellPrinted(es[0]);
    LogRowsHead(es[1..]);
    RunFirstPrinted(es[0], LogRows(es[1..]), init);
    PrintedTail(es);
  }

  /** A printed commit followed by the next commit line: its blank last row is dropped. */
  lemma {:induction false} RunFirstPrinted(e: Printed, more: seq<string>, init: seq<Commit>)
    requires WellPrinted(e) && more != [] && StartsWith(more[0], "commit ")
    ensures Run(PrintedRows(e) + more, LogState(AtCommitLine, init))
         == Run(more, LogState(AtCommitLine, init + [Unfinished(e)]))
  {
    var o := Opened(e);
    PrintedOpens(e, more, init);
    assert o.message == "";
    MessageRowsJoined(e.message, [""] + more, init, o);
    BlankBeforeCommit(more, init + [Unfinished(e)]);
  }

  /** The last printed commit: its blank last row adds a newline to the message. */
  lemma {:induction false} RunLastPrinted(e: Printed, init: seq<Commit>)
    requires WellPrinted(e)
    ensures Run(PrintedRows(e) + [], LogState(AtCommitLine, init))
         == Ok(LogState(InMessage, init + [Unfinished(e).(message := Unfinished(e).message + "\n")]))
  {
    var o := Opened(e);
    var c := Unfinished(e);
    PrintedOpens(e, [], init);
    assert o.message == "";
    MessageRowsJoined(e.message, [""] + [], init, o);
    JoinedNotEmpty(e.message);
    MessageStep([""], init, c);
    assert [""][1..] == [];
    assert AppendMessage(c.message, "") == c.message + "\n" by {
      assert Trim("") == "";
    }
  }

  lemma {:induction false} PrintedTail(es: seq<Printed>)
    requires es != [] && forall i :: 0 <= i < |es| ==> WellPrinted(es[i])
    ensures forall i :: 0 <= i < |es[1..]| ==> WellPrinted(es[1..][i])
  {
    forall i | 0 <= i < |es[1..]|
      ensures WellPrinted(es[1..][i])
    {
      assert es[1..][i] == es[i + 1];
    }
  }

  /** In the message state, the blank row before a commit line is dropped. */
  lemma {:induction false} BlankBeforeCommit(more: seq<string>, commits: seq<Commit>)
    requires more != [] && StartsWith(more[0], "commit ") && commits != []
    ensures Run([""] + more, LogState(InMessage, commits)) == Run(more, LogState(AtCommitLine, commits))
  {
    var rows := [""] + more;
    assert rows[0] == "" && rows[1] == more[0] && rows[1..] == more;
    RunStep(rows, LogState(InMessage, commits), LogState(AtCommitLine, commits));
  }

  /** `git log` text of printed commits, one row per line and a final newline:
      exactly one record per printed commit, in order, each with the fields its
      commit line and headers set and its message rows trimmed and joined. */
  lemma {:induction false} LogOfPrinted(es: seq<Printed>, text: string)
    requires es != [] && forall i :: 0 <= i < |es| ==> WellPrinted(es[i]) && OneLine(es[i])
    requires text == Join(LogRows(es), "\n")
    ensures LogOf(text).Ok? && |LogOf(text).value| == |es|
    ensures forall i :: 0 <= i < |es| ==>
      LogOf(text).value[i] == Opened(es[i]).(message := Trim(Joined("", es[i].message)))
  {
    var rows := LogRows(es);
    LogRowsHead(es);
    LogRowsFree(es);
    SplitJoin(rows, EOL);
    RunPrinted(es, []);
    assert [] + Pending(es) == Pending(es);
    FinishPending(es);
  }

  /** The final trim of the pending commits: the newline of the last one goes too. */
  lemma {:induction false} FinishPending(es: seq<Printed>)
    ensures |Finish(Pending(es))| == |es|
    ensures forall i :: 0 <= i < |es| ==>
      Finish(Pending(es))[i] == Opened(es[i]).(message := Trim(Joined("", es[i].message)))
  {
    forall i | 0 <= i < |es|
      ensures Finish(Pending(es))[i] == Opened(es[i]).(message := Trim(Joined("", es[i].message)))
    {
      FinishPendingAt(es, i);
    }
  }

  lemma {:induction false} FinishPendingAt(es: seq<Printed>, i: nat)
    requires i < |es|
    ensures Finish(Pending(es))[i] == Opened(es[i]).(message := Trim(Joined("", es[i].message)))
  {
    var j := Joined("", es[i].message);
    var p := Pending(es)[i];
    PendingAt(es, i);
    assert Finish(Pending(es))[i] == p.(message := Trim(p.message));
    if i == |es| - 1 {
      assert p.message == j + "\n";
      TrimAppendSpace(j, "\n");
    } else {
      assert p.message == j + "" == j;
    }
  }

  /** The pending commit of each printed commit. */
  lemma {:induction false} PendingAt(es: seq<Printed>, i: nat)
    requires i < |es|
    ensures Pending(es)[i] == Unfinished(es[i]).(message := Joined("", es[i].message) + (if i == |es| - 1 then "\n" else ""))
    decreases i
  {
    if i == 0 {
      PendingFirst(es);
    } else {
      PendingTail(es);
      PendingAt(es[1..], i - 1);
      assert es[1..][i - 1] == es[i];
      assert Pending(es)[i] == Pending(es[1..])[i - 1];
    }
  }

  lemma {:induction false} PendingFirst(es: seq<Printed>)
    requires es != []
    ensures Pending(es)[0] == Unfinished(es[0]).(message := Joined("", es[0].message) + (if |es| == 1 then "\n" else ""))
  {
    var c := Unfinished(es[0]);
    if |es| == 1 {
      assert c.(message := c.message + "\n") == c.(message := Joined("", es[0].message) + "\n");
    } else {
      assert Pending(es)[0] == c;
      assert Joined("", es[0].message) + "" == Joined("", es[0].message);
    }
  }

  lemma {:induction false} PendingTail(es: seq<Printed>)
    requires |es| > 1
    ensures Pending(es) == [Unfinished(es[0])] + Pending(es[1..])
  {
  }

  /** No row of printed commits holds a line break. */
  lemma {:induction false} LogRowsFree(es: seq<Printed>)
    requires forall i :: 0 <= i < |es| ==> OneLine(es[i])
    ensures forall i :: 0 <= i < |LogRows(es)| ==> "\n"[0] !in LogRows(es)[i]
    decreases |es|
  {
    if es != [] {
      var e, rest := es[0], LogRows(es[1..]);
      assert OneLine(e);
      assert forall i :: 0 <= i < |es[1..]| ==> OneLine(es[1..][i]) by {
        forall i | 0 <= i < |es[1..]| ensures OneLine(es[1..][i]) { assert es[1..][i] == es[i + 1]; }
      }
      LogRowsFree(es[1..]);
      forall i | 0 <= i < |LogRows(es)|
        ensures "\n"[0] !in LogRows(es)[i]
      {
        var k := |PrintedRows(e)|;
        if i < k {
          assert LogRows(es)[i] == PrintedRows(e)[i];
          assert PrintedRows(e)[i] in PrintedRows(e);
        } else {
          assert LogRows(es)[i] == rest[i - k];
        }
      }
    }
  }

  /** Empty text still gives one commit, with no hash and an empty message. */
  lemma {:induction false} EmptyLog()
    ensures LogOf("") == Ok([Commit(None, [], [], None, None, None, None, None, None, "")])
  {
    assert Split("", EOL) == [""] && Split("", "(") == [""] && Split("", " ") == [""];
    assert Hashes("") == [] && Refs("") == [];
    var c := Commit(None, [], [], None, None, None, None, None, None, "");
    assert ParseCommitLine("") == c;
    assert Run([""], LogState(AtCommitLine, [])) == Run([], LogState(InHeaders, [c]));
    assert Trim("") == "";
    assert Finish([c]) == [c];
  }

  /** The rows of a one-commit log: commit line, author, blank row, one
      indented message row, and the empty row after the final newline. */
  lemma {:induction false} OneCommitRows(r0: string, r1: string, r3: string)
    requires '\n' !in r0 && '\n' !in r1 && '\n' !in r3
    ensures Split(r0 + "\n" + r1 + "\n\n" + r3 + "\n", EOL) == [r0, r1, "", r3, ""]
  {
    var rows := [r0, r1, "", r3];
    assert Join(rows, "\n") == r0 + "\n" + (r1 + "\n" + ("" + "\n" + r3)) by {
      var t1 := rows[1..];
      var t2 := t1[1..];
      assert t2 == ["", r3] && t2[1..] == [r3];
      assert Join(t2, "\n") == "" + "\n" + r3;
      assert Join(t1, "\n") == r1 + "\n" + Join(t2, "\n");
    }
    assert r0 + "\n" + r1 + "\n\n" + r3 + "\n" == Join(rows, "\n") + "\n" + "";
    SplitJoinRest(rows, "\n", "");
    assert Split("", "\n") == [""];
  }

  /** A whole log of one commit with an author and a one-line message. */
  lemma {:induction false} OneCommitLog(sha1: string, name: string, email: string, message: string)
    requires sha1 != [] && ' ' !in sha1 && '(' !in sha1 && '\n' !in sha1
    requires name != [] && '<' !in name && '\n' !in name && !IsSpace(name[0]) && !IsSpace(name[|name| - 1])
    requires email != [] && '>' !in email && '\n' !in email && !IsSpace(email[0]) && !IsSpace(email[|email| - 1])
    requires message != [] && '\n' !in message && !IsSpace(message[0]) && !IsSpace(message[|message| - 1])
    ensures LogOf(("commit " + sha1) + "\n" + ("Author: " + name + " <" + email + ">") + "\n\n" + ("    " + message) + "\n")
         == Ok([Commit(Some(sha1), [], [], Some(name), Some(email), None, None, None, None, message)])
  {
    var r0, r1, r3 := "commit " + sha1, "Author: " + name + " <" + email + ">", "    " + message;
    OneCommitRowsFree(sha1, name, email, message);
    OneCommitRows(r0, r1, r3);
    var c1 := OneCommitHeader(sha1, name, email);
    TrimPad("    ", message, "");
    assert "    " + message + "" == r3;
    OneCommitRun(r0, r1, r3, c1, message);
    FinishOne(c1, message);
  }

  /** No row of a one-commit log holds a line break. */
  lemma {:induction false} OneCommitRowsFree(sha1: string, name: string, email: string, message: string)
    requires '\n' !in sha1 && '\n' !in name && '\n' !in email && '\n' !in message
    ensures '\n' !in "commit " + sha1 && '\n' !in "Author: " + name + " <" + email + ">" && '\n' !in "    " + message
  {
    assert '\n' !in "commit " && '\n' !in "Author: " && '\n' !in " <" && '\n' !in ">" && '\n' !in "    ";
    NotInAppend('\n', "commit ", sha1);
    NotInAppend('\n', "Author: ", name);
    NotInAppend('\n', "Author: " + name, " <");
    NotInAppend('\n', "Author: " + name + " <", email);
    NotInAppend('\n', "Author: " + name + " <" + email, ">");
    NotInAppend('\n', "    ", message);
  }

  /** The final trim takes the newline the empty last row added off the message. */
  lemma {:induction false} FinishOne(c: Commit, message: string)
    requires message != [] && !IsSpace(message[0]) && !IsSpace(message[|message| - 1])
    ensures Finish([c.(message := message + "\n")]) == [c.(message := message)]
  {
    TrimPad("", message, "\n");
    assert "" + message + "\n" == message + "\n";
  }

  /** The commit line and the author row of a one-commit log. */
  lemma {:induction false} OneCommitHeader(sha1: string, name: string, email: string) returns (c1: Commit)
    requires sha1 != [] && ' ' !in sha1 && '(' !in sha1
    requires name != [] && '<' !in name && !IsSpace(name[0]) && !IsSpace(name[|name| - 1])
    requires email != [] && '>' !in email && !IsSpace(email[0]) && !IsSpace(email[|email| - 1])
    ensures c1 == Commit(Some(sha1), [], [], Some(name), Some(email), None, None, None, None, "")
    ensures HeaderStep(ParseCommitLine("commit " + sha1), "Author: " + name + " <" + email + ">") == Ok((c1, InHeaders))
  {
    CommitLineRoundTrip(sha1, [], [], false);
    assert Join([sha1] + [], " ") == sha1;
    assert "commit " + sha1 + "" == "commit " + sha1;
    var c0 := Commit(Some(sha1), [], [], None, None, None, None, None, None, "");
    assert ParseCommitLine("commit " + sha1) == c0;
    AuthorHeaderFields(c0, name, email);
    c1 := c0.(authorName := Some(name), authorEmail := Some(email));
  }

  /** The five rows of a one-commit log through the three states. */
  lemma {:induction false} OneCommitRun(r0: string, r1: string, r3: string, c1: Commit, message: string)
    requires HeaderStep(ParseCommitLine(r0), r1) == Ok((c1, InHeaders)) && c1.message == ""
    requires Trim(r3) == message && message != ""
    ensures Run([r0, r1, "", r3, ""], LogState(AtCommitLine, []))
         == Ok(LogState(InMessage, [c1.(message := message + "\n")]))
  {
    var rows := [r0, r1, "", r3, ""];
    OneCommitHeaderRows(r0, r1, r3, c1);
    assert rows[3..] == [r3, ""];
    OneCommitMessageRows(r3, c1, message);
  }

  /** A state change of the first row of some rows, seen from the whole run. */
  lemma {:induction false} RunStep(rows: seq<string>, st: LogState, s: LogState)
    requires rows != [] && Valid(st)
    requires Step(st, rows[0], if |rows| > 1 then Some(rows[1]) else None) == Ok(s)
    ensures Run(rows, st) == Run(rows[1..], s)
  {
  }

  /** A row in the commit-line state starts a new commit. */
  lemma {:induction false} CommitLineRow(rows: seq<string>, commits: seq<Commit>)
    requires rows != []
    ensures Run(rows, LogState(AtCommitLine, commits))
         == Run(rows[1..], LogState(InHeaders, commits + [ParseCommitLine(rows[0])]))
  {
    RunStep(rows, LogState(AtCommitLine, commits), LogState(InHeaders, commits + [ParseCommitLine(rows[0])]));
  }

  /** A header row read without error, seen from the whole run. */
  lemma {:induction false} HeaderRowRun(rows: seq<string>, commits: seq<Commit>, c: Commit, mode: Mode)
    requires rows != [] && commits != []
    requires HeaderStep(commits[|commits| - 1], rows[0]) == Ok((c, mode))
    ensures Run(rows, LogState(InHeaders, commits)) == Run(rows[1..], LogState(mode, commits[..|commits| - 1] + [c]))
  {
    assert commits[|commits| - 1 := c] == commits[..|commits| - 1] + [c];
    RunStep(rows, LogState(InHeaders, commits), LogState(mode, commits[..|commits| - 1] + [c]));
  }

  /** The commit line, the author row and the blank row: the message state follows. */
  lemma {:induction false} OneCommitHeaderRows(r0: string, r1: string, r3: string, c1: Commit)
    requires HeaderStep(ParseCommitLine(r0), r1) == Ok((c1, InHeaders))
    ensures Run([r0, r1, "", r3, ""], LogState(AtCommitLine, [])) == Run([r3, ""], LogState(InMessage, [c1]))
  {
    OneCommitLineRow(r0, r1, r3);
    OneAuthorRow(ParseCommitLine(r0), r1, r3, c1);
    OneBlankRow(r3, c1);
  }

  lemma {:induction false} OneCommitLineRow(r0: string, r1: string, r3: string)
    ensures Run([r0, r1, "", r3, ""], LogState(AtCommitLine, []))
         == Run([r1, "", r3, ""], LogState(InHeaders, [ParseCommitLine(r0)]))
  {
    var rows := [r0, r1, "", r3, ""];
    assert rows[0] == r0 && rows[1..] == [r1, "", r3, ""] && [] + [ParseCommitLine(r0)] == [ParseCommitLine(r0)];
    CommitLineRow(rows, []);
  }

  lemma {:induction false} OneAuthorRow(p0: Commit, r1: string, r3: string, c1: Commit)
    requires HeaderStep(p0, r1) == Ok((c1, InHeaders))
    ensures Run([r1, "", r3, ""], LogState(InHeaders, [p0])) == Run(["", r3, ""], LogState(InHeaders, [c1]))
  {
    var rows := [r1, "", r3, ""];
    assert rows[0] == r1 && rows[1..] == ["", r3, ""] && [p0][..0] + [c1] == [c1];
    HeaderRowRun(rows, [p0], c1, InHeaders);
  }

  lemma {:induction false} OneBlankRow(r3: string, c1: Commit)
    ensures Run(["", r3, ""], LogState(InHeaders, [c1])) == Run([r3, ""], LogState(InMessage, [c1]))
  {
    var rows := ["", r3, ""];
    BlankHeaderRow(c1);
    assert rows[0] == "" && rows[1..] == [r3, ""] && [c1][..0] + [c1] == [c1];
    HeaderRowRun(rows, [c1], c1, InMessage);
  }

  /** The blank row after the headers starts the message and leaves the commit as it is. */
  lemma {:induction false} BlankHeaderRow(c: Commit)
    ensures HeaderStep(c, "") == Ok((c, InMessage))
  {
    assert Trim("") == "";
  }

  /** The indented message row and the empty row after the final newline. */
  lemma {:induction false} OneCommitMessageRows(r3: string, c1: Commit, message: string)
    requires Trim(r3) == message && message != "" && c1.message == ""
    ensures Run([r3, ""], LogState(InMessage, [c1])) == Ok(LogState(InMessage, [c1.(message := message + "\n")]))
  {
    var rows := [r3, ""];
    var c3 := c1.(message := message);
    var c4 := c1.(message := message + "\n");
    MessageAppends(r3, message);
    MessageRow(c1, r3, Some(""), c3);
    RunStep(rows, LogState(InMessage, [c1]), LogState(InMessage, [c3]));
    MessageRow(c3, "", None, c4);
    assert rows[1..] == [""];
    RunStep(rows[1..], LogState(InMessage, [c3]), LogState(InMessage, [c4]));
    assert [""][1..] == [];
  }

  /** The message after the indented row, and after the empty row. */
  lemma {:induction false} MessageAppends(row: string, message: string)
    requires Trim(row) == message && message != ""
    ensures AppendMessage("", row) == message && AppendMessage(message, "") == message + "\n"
  {
    assert Trim("") == "";
    assert message + "\n" + "" == message + "\n";
  }

  /** A message row of a single commit not followed by a commit line. */
  lemma {:induction false} MessageRow(c: Commit, row: string, next: Option<string>, c': Commit)
    requires !NextIsCommit(next) && c' == c.(message := AppendMessage(c.message, row))
    ensures Step(LogState(InMessage, [c]), row, next) == Ok(LogState(InMessage, [c']))
  {
    SingleUpdate(c, c');
    assert Step(LogState(InMessage, [c]), row, next) == Ok(LogState(InMessage, [c][0 := c']));
  }

  lemma {:induction false} SingleUpdate(c: Commit, c': Commit)
    ensures [c][0 := c'] == [c']
  {
    assert [c][0 := c'][0] == c';
  }
}
