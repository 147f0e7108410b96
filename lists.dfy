/** The three list parsers built from `filter` and `map` alone:
    `parseGitTags` and `parseGitRemotes` (the same pipeline, one name per
    line) and `parseGitLsRemote` (a hash and a ref name per line). */
module ListParsers {
  import opened Results
  import opened JsText

  // ---- parseGitTags, parseGitRemotes

  /** What `parseGitTags(text)` and `parseGitRemotes(text)` return: the lines
      without the empty ones. */
  function NamesOf(text: string): (names: seq<string>)
    ensures "" !in names
  {
    RemoveEmpty(Split(text, EOL))
  }

  /** Exactly the empty lines are dropped: every other line is kept as often
      as it occurs, and the lines of two texts come out one after the other. */
  lemma {:induction false} NamesKeepLines(text: string, more: string)
    ensures forall x :: x != "" ==> multiset(NamesOf(text))[x] == multiset(Split(text, EOL))[x]
    ensures NamesOf(text + EOL + more) == NamesOf(text) + NamesOf(more)
  {
    JoinSplit(text, EOL);
    SplitAround(text, EOL, more);
    RemoveEmptyAppend(Split(text, EOL), Split(more, EOL));
  }

  /** Names printed one per line, with or without a final newline, come back in order. */
  lemma {:induction false} NamesRoundTrip(names: seq<string>)
    requires names != [] && "" !in names
    requires forall i :: 0 <= i < |names| ==> '\n' !in names[i]
    ensures NamesOf(Join(names, EOL)) == names
    ensures NamesOf(Join(names, EOL) + EOL) == names
  {
    SplitJoin(names, EOL);
    RemoveEmptyKeeps(names);
    SplitTrailingSeparator(Join(names, EOL), EOL);
    RemoveEmptyAppend(names, [""]);
    assert RemoveEmpty([""]) == [];
    assert names + [] == names;
  }

  // ---- parseGitLsRemote

  /** One advertised ref. */
  datatype RemoteRef = RemoteRef(sha1: string, name: string)

  /** The `filter`: a line is kept when it is non-empty and does not start with `From `. */
  predicate Listed(line: string) {
    line != "" && !StartsWith(line, "From ")
  }

  function ListedLines(lines: seq<string>): (r: seq<string>)
    ensures forall i :: 0 <= i < |r| ==> Listed(r[i])
    ensures |r| <= |lines|
    decreases |lines|
  {
    if lines == [] then []
    else (if Listed(lines[0]) then [lines[0]] else []) + ListedLines(lines[1..])
  }

  /** The `map`: the first 40 characters are the hash, the rest after the
      separating character, trimmed, is the name. */
  function RefOfLine(line: string): (r: RemoteRef)
    ensures |r.sha1| == if |line| < 40 then |line| else 40
    ensures r.sha1 == line[..|r.sha1|]
    ensures |line| <= 41 ==> r.name == ""
    ensures r.name != [] ==> !IsSpace(r.name[0]) && !IsSpace(r.name[|r.name| - 1])
  {
    TrimShape(Drop(line, 41));
    RemoteRef(Take(line, 40), Trim(Drop(line, 41)))
  }

  /** What `parseGitLsRemote(text)` returns. */
  function RemoteRefsOf(text: string): (refs: seq<RemoteRef>)
    ensures |refs| <= |Split(text, EOL)|
    ensures forall i :: 0 <= i < |refs| ==> |refs[i].sha1| <= 40
  {
    var lines := ListedLines(Split(text, EOL));
    seq(|lines|, i requires 0 <= i < |lines| => RefOfLine(lines[i]))
  }

  /** Lines after lines: the kept ones of both, in order. */
  lemma {:induction false} ListedLinesAppend(a: seq<string>, b: seq<string>)
    ensures ListedLines(a + b) == ListedLines(a) + ListedLines(b)
    decreases |a|
  {
    if a == [] {
      assert a + b == b;
    } else {
      assert (a + b)[0] == a[0] && (a + b)[1..] == a[1..] + b;
      ListedLinesAppend(a[1..], b);
    }
  }

  /** Every line that is kept, and only those, in order. */
  lemma {:induction false} ListedLinesKeeps(lines: seq<string>)
    requires forall i :: 0 <= i < |lines| ==> Listed(lines[i])
    ensures ListedLines(lines) == lines
    decreases |lines|
  {
    if lines != [] {
      assert Listed(lines[0]);
      ListedLinesKeeps(lines[1..]);
    }
  }

  /** A ref line `<40-character hash><separator><name>` gives back the hash and
      the name, whatever whitespace surrounds the name. */
  lemma {:induction false} RefLineRoundTrip(sha1: string, sep: char, pad: string, name: string)
    requires |sha1| == 40 && !StartsWith(sha1, "From ")
    requires AllSpace(pad) && (name != [] ==> !IsSpace(name[0]) && !IsSpace(name[|name| - 1]))
    ensures Listed(sha1 + [sep] + pad + name)
    ensures RefOfLine(sha1 + [sep] + pad + name) == RemoteRef(sha1, name)
  {
    var line := sha1 + [sep] + pad + name;
    assert line[..40] == sha1 && line[41..] == pad + name + "";
    assert line[..5] == sha1[..5];
    TrimPad(pad, name, "");
  }

  /** The line git prints for a ref, with a tab before the name. */
  function RefLine(r: RemoteRef): string {
    r.sha1 + "\t" + r.name
  }

  predicate PrintableRef(r: RemoteRef) {
    && |r.sha1| == 40 && !StartsWith(r.sha1, "From ") && '\n' !in r.sha1
    && '\n' !in r.name && (r.name != [] ==> !IsSpace(r.name[0]) && !IsSpace(r.name[|r.name| - 1]))
  }

  function RefLines(refs: seq<RemoteRef>): (lines: seq<string>)
    ensures |lines| == |refs|
  {
    seq(|refs|, i requires 0 <= i < |refs| => RefLine(refs[i]))
  }

  /** `git ls-remote <url>` output, its `From <url>` line first and a final
      newline, gives back the refs in order. */
  lemma {:induction false} RemoteRefsRoundTrip(url: string, refs: seq<RemoteRef>)
    requires '\n' !in url
    requires forall i :: 0 <= i < |refs| ==> PrintableRef(refs[i])
    ensures RemoteRefsOf(Join(["From " + url] + RefLines(refs), EOL) + EOL) == refs
  {
    var lines := RefLines(refs);
    RefLinesRead(refs);
    RemoteLinesSplit("From " + url, lines);
    FromLineDropped(url, lines + [""]);
    ListedLinesAppend(lines, [""]);
    ListedLinesKeeps(lines);
    assert ListedLines([""]) == [];
    assert lines + [] == lines;
  }

  /** Each printed ref line is kept and read back as its ref. */
  lemma {:induction false} RefLinesRead(refs: seq<RemoteRef>)
    requires forall i :: 0 <= i < |refs| ==> PrintableRef(refs[i])
    ensures forall i :: 0 <= i < |refs| ==>
      Listed(RefLines(refs)[i]) && '\n' !in RefLines(refs)[i] && RefOfLine(RefLines(refs)[i]) == refs[i]
  {
    forall i | 0 <= i < |refs|
      ensures Listed(RefLines(refs)[i]) && '\n' !in RefLines(refs)[i] && RefOfLine(RefLines(refs)[i]) == refs[i]
    {
      assert RefLines(refs)[i] == refs[i].sha1 + ['\t'] + "" + refs[i].name;
      RefLineRoundTrip(refs[i].sha1, '\t', "", refs[i].name);
    }
  }

  /** The lines of the printed output, and the empty one after the final newline. */
  lemma {:induction false} RemoteLinesSplit(from: string, lines: seq<string>)
    requires '\n' !in from && forall i :: 0 <= i < |lines| ==> '\n' !in lines[i]
    ensures Split(Join([from] + lines, EOL) + EOL, EOL) == [from] + (lines + [""])
  {
    var all := [from] + lines;
    LinesFree(from, lines);
    SplitJoinRest(all, EOL, "");
    assert Join(all, EOL) + EOL + "" == Join(all, EOL) + EOL;
    AppendAssoc([from], lines, [""]);
  }

  lemma {:induction false} LinesFree(from: string, lines: seq<string>)
    requires '\n' !in from && forall i :: 0 <= i < |lines| ==> '\n' !in lines[i]
    ensures forall i :: 0 <= i < |[from] + lines| ==> EOL[0] !in ([from] + lines)[i]
  {
    forall i | 0 <= i < |[from] + lines| ensures EOL[0] !in ([from] + lines)[i] {
      if i > 0 { assert ([from] + lines)[i] == lines[i - 1]; }
    }
  }

  /** Only the `From ` line and empty lines are dropped. */
  lemma {:induction false} FromLineDropped(url: string, lines: seq<string>)
    ensures ListedLines(["From " + url] + lines) == ListedLines(lines)
    ensures ListedLines([""] + lines) == ListedLines(lines)
  {
    assert ("From " + url)[..5] == "From ";
    ListedLinesAppend(["From " + url], lines);
    ListedLinesAppend([""], lines);
  }
}
