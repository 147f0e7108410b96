/** `parseGitDiff`: unified diff text (as `git diff` prints it) to one record per
    file block, with the block's paths, modes, kind flags and numbered lines. */
module DiffParser {
  import opened Results
  import opened JsText
  import opened DiffFormat

  /** One entry of `diff.lines`: `[originalLineNumber, newLineNumber, text]`. */
  datatype DiffLine = DiffLine(originalLine: Option<nat>, newLine: Option<nat>, text: string)

  /** The fields a block has when it has more than a header and mode lines. */
  datatype DiffBody = DiffBody(simIndex: nat, newFile: bool, deletedFile: bool, renamedFile: bool, lines: seq<DiffLine>)

  /** One file block: `body` is `None` for a block that is only a header and mode lines. */
  datatype FileDiff = FileDiff(aPath: string, bPath: string, aMode: Option<string>, bMode: Option<string>, body: Option<DiffBody>)

  /** Where the source throws a `TypeError`. */
  datatype DiffError =
    | MalformedHeader(line: string)      // the header pattern does not match: `path[1]` of `null`
    | MalformedFileMode(line: string)    // `new file` / `deleted file` without a mode: `[1]` of `null`
    | MissingIndexLine                   // no line left where the index line is shifted
    | MalformedHunkHeader(line: string)  // an `@@ ` line the hunk pattern does not match
    | ToIUndefined(digits: string)       // the similarity branch as written: `to_i` is not a function

  /** The running line numbers. `None` is the value before any hunk header
      (`undefined`, which `++` turns into `NaN`). The two variables are declared
      with `var` inside the loop, so they are function-scoped and carry over from
      one block to the next. */
  datatype Counters = Counters(originalLine: Option<nat>, newLine: Option<nat>)

  /** `n++` on the numeric value; `NaN` stays `NaN`. */
  function Inc(n: Option<nat>): (r: Option<nat>)
    ensures r.Some? <==> n.Some?
    ensures r.Some? ==> r.value == n.value + 1
  {
    if n.Some? then Some(n.value + 1) else None
  }

  // ---- the stages of one block

  /** The modes and the lines left after the optional `old mode` / `new mode` pair. */
  datatype Prelude = Prelude(aMode: Option<string>, bMode: Option<string>, rest: seq<string>)

  function ModeLines(lines: seq<string>): (r: Prelude)
    ensures |r.rest| <= |lines|
  {
    if |lines| > 0 && StartsWith(lines[0], "old mode") then
      Prelude(ModeCapture("old mode ", Some(lines[0])),
              ModeCapture("new mode ", if |lines| > 1 then Some(lines[1]) else None),
              DropLines(lines, 2))
    else Prelude(None, None, lines)
  }

  /** The kind of a block with a body, its modes, and the lines left. */
  datatype Classification = Classification(simIndex: nat, newFile: bool, deletedFile: bool, renamedFile: bool,
                                           aMode: Option<string>, bMode: Option<string>, rest: seq<string>)

  /** The `new file` / `deleted file` / `similarity index` branch, with `to_i`
      read as decimal conversion and the similarity line shifted with the two
      rename lines. */
  function Classify(lines: seq<string>, aMode: Option<string>, bMode: Option<string>): (r: Result<Classification, DiffError>)
    requires |lines| > 0
    ensures r.Ok? ==> |r.value.rest| <= |lines|
  {
    if StartsWith(lines[0], "new file") then
      match RestOfLine("new file mode ", lines[0])
      case None => Err(MalformedFileMode(lines[0]))
      case Some(mode) => Ok(Classification(0, true, false, false, None, Some(mode), lines[1..]))
    else if StartsWith(lines[0], "deleted file") then
      match RestOfLine("deleted file mode ", lines[0])
      case None => Err(MalformedFileMode(lines[0]))
      case Some(mode) => Ok(Classification(0, false, true, false, Some(mode), None, lines[1..]))
    else
      match SimilarityCapture(lines[0])
      case Some(d) => Ok(Classification(DecimalValue(d), false, false, true, aMode, bMode, DropLines(lines, 3)))
      case None => Ok(Classification(0, false, false, false, aMode, bMode, lines))
  }

  /** Shifts the index line, then one more line when it did start with `index `,
      then one more; only the first shift can fail. */
  function SkipMarkers(lines: seq<string>): (r: Result<seq<string>, DiffError>)
    ensures r.Ok? ==> |r.value| < |lines|
  {
    if |lines| == 0 then Err(MissingIndexLine)
    else
      var rest := if StartsWith(lines[0], "index ") then DropLines(lines[1..], 1) else lines[1..];
      Ok(DropLines(rest, 1))
  }

  /** The body lines read, the lines left, and the counters afterwards. */
  datatype BodyParse = BodyParse(entries: seq<DiffLine>, rest: seq<string>, counters: Counters)

  /** The body loop stops at the end, at an empty line, and at a line starting with `diff`. */
  predicate EndsBody(lines: seq<string>) {
    |lines| == 0 || lines[0] == "" || StartsWith(lines[0], "diff")
  }

  function PrependLines(es: seq<DiffLine>, r: Result<BodyParse, DiffError>): Result<BodyParse, DiffError> {
    match r
    case Ok(b) => Ok(b.(entries := es + b.entries))
    case Err(e) => Err(e)
  }

  /** The entry one body line gives and the counters after it. */
  datatype Step = Step(entry: DiffLine, next: Counters)

  /** One iteration of the body loop: a hunk header resets both counters from
      its numbers; an added line takes the new number, a removed line the
      original one, any other line both; the counter used is then incremented. */
  function BodyStep(line: string, c: Counters): (r: Result<Step, DiffError>)
    requires line != ""
    ensures r.Ok? ==> r.value.entry.text == line
  {
    if StartsWith(line, "@@ ") then
      match HunkRange(line)
      case None => Err(MalformedHunkHeader(line))
      case Some(range) => Ok(Step(DiffLine(None, None, line), Counters(Some(range.0), Some(range.1))))
    else if line[0] == '+' then Ok(Step(DiffLine(None, c.newLine, line), c.(newLine := Inc(c.newLine))))
    else if line[0] == '-' then Ok(Step(DiffLine(c.originalLine, None, line), c.(originalLine := Inc(c.originalLine))))
    else Ok(Step(DiffLine(c.originalLine, c.newLine, line), Counters(Inc(c.originalLine), Inc(c.newLine))))
  }

  /** The body loop, up to the first line that ends the body. */
  function ParseBody(lines: seq<string>, c: Counters): (r: Result<BodyParse, DiffError>)
    ensures r.Ok? ==> |r.value.rest| <= |lines|
    decreases |lines|
  {
    if EndsBody(lines) then Ok(BodyParse([], lines, c))
    else
      match BodyStep(lines[0], c)
      case Err(e) => Err(e)
      case Ok(step) => PrependLines([step.entry], ParseBody(lines[1..], step.next))
  }

  /** One block read, the lines left, and the counters afterwards. */
  datatype BlockParse = BlockParse(diff: FileDiff, rest: seq<string>, counters: Counters)

  /** One iteration of the outer loop. */
  function ParseBlock(lines: seq<string>, c: Counters): (r: Result<BlockParse, DiffError>)
    requires |lines| > 0
    ensures r.Ok? ==> |r.value.rest| < |lines|
    ensures r.Ok? ==> DiffHeader(lines[0]) == Some((r.value.diff.aPath, r.value.diff.bPath))
    ensures DiffHeader(lines[0]).None? ==> r == Err(MalformedHeader(lines[0]))
  {
    match DiffHeader(lines[0])
    case None => Err(MalformedHeader(lines[0]))
    case Some(paths) =>
      var modes := ModeLines(lines[1..]);
      if |modes.rest| == 0 || StartsWith(modes.rest[0], "diff --git") then
        Ok(BlockParse(FileDiff(paths.0, paths.1, modes.aMode, modes.bMode, None), modes.rest, c))
      else
        match Classify(modes.rest, modes.aMode, modes.bMode)
        case Err(e) => Err(e)
        case Ok(k) =>
          match SkipMarkers(k.rest)
          case Err(e) => Err(e)
          case Ok(body) =>
            match ParseBody(body, c)
            case Err(e) => Err(e)
            case Ok(b) =>
              Ok(BlockParse(FileDiff(paths.0, paths.1, k.aMode, k.bMode,
                                     Some(DiffBody(k.simIndex, k.newFile, k.deletedFile, k.renamedFile, b.entries))),
                            b.rest, b.counters))
  }

  function PrependDiffs(ds: seq<FileDiff>, r: Result<seq<FileDiff>, DiffError>): Result<seq<FileDiff>, DiffError> {
    match r
    case Ok(xs) => Ok(ds + xs)
    case Err(e) => Err(e)
  }

  /** The outer loop: blocks until the end or an empty line; the first error aborts. */
  function ParseBlocks(lines: seq<string>, c: Counters): (r: Result<seq<FileDiff>, DiffError>)
    ensures r.Ok? ==> |r.value| <= |lines|
    ensures r.Ok? ==> forall i :: 0 <= i < |r.value| ==> r.value[i].aPath != [] && r.value[i].bPath != []
    ensures r.Ok? && r.value != [] ==> DiffHeader(lines[0]) == Some((r.value[0].aPath, r.value[0].bPath))
    decreases |lines|
  {
    if |lines| == 0 || lines[0] == "" then Ok([])
    else
      match ParseBlock(lines, c)
      case Err(e) => Err(e)
      case Ok(b) => PrependDiffs([b.diff], ParseBlocks(b.rest, b.counters))
  }

  /** What `parseGitDiff(text)` returns, or the error it throws. */
  function DiffOf(text: string): (r: Result<seq<FileDiff>, DiffError>)
    ensures r.Ok? ==> |r.value| <= |Split(text, EOL)|
    ensures r.Ok? ==> forall i :: 0 <= i < |r.value| ==> r.value[i].aPath != [] && r.value[i].bPath != []
  {
    ParseBlocks(Split(text, EOL), Counters(None, None))
  }

  lemma {:induction false} PrependDiffsAppend(a: seq<FileDiff>, b: seq<FileDiff>, r: Result<seq<FileDiff>, DiffError>)
    ensures PrependDiffs(a, PrependDiffs(b, r)) == PrependDiffs(a + b, r)
  {
    if r.Ok? {
      assert a + (b + r.value) == (a + b) + r.value;
    }
  }

  lemma {:induction false} PrependLinesAppend(a: seq<DiffLine>, b: seq<DiffLine>, r: Result<BodyParse, DiffError>)
    ensures PrependLines(a, PrependLines(b, r)) == PrependLines(a + b, r)
  {
    if r.Ok? {
      assert a + (b + r.value.entries) == (a + b) + r.value.entries;
    }
  }

  /** The body loop of `parseGitDiff`, from the line after the markers. */
  method ReadBody(start: seq<string>, entry: Counters) returns (r: Result<BodyParse, DiffError>)
    ensures r == ParseBody(start, entry)
  {
    var lines := start;
    var originalLine, newLine := entry.originalLine, entry.newLine;
    var diffLines: seq<DiffLine> := [];
    assert PrependLines([], ParseBody(start, entry)) == ParseBody(start, entry) by {
      if ParseBody(start, entry).Ok? {
        assert [] + ParseBody(start, entry).value.entries == ParseBody(start, entry).value.entries;
      }
    }
    while |lines| > 0 && lines[0] != "" && !StartsWith(lines[0], "diff")
      invariant ParseBody(start, entry) == PrependLines(diffLines, ParseBody(lines, Counters(originalLine, newLine)))
      decreases |lines|
    {
      var line := lines[0];
      ghost var here := Counters(originalLine, newLine);
      lines := lines[1..];
      if StartsWith(line, "@@ ") {
        var changeGroup := HunkRange(line);
        if changeGroup.None? {
          return Err(MalformedHunkHeader(line));
        }
        originalLine, newLine := Some(changeGroup.value.0), Some(changeGroup.value.1);
        PrependLinesAppend(diffLines, [DiffLine(None, None, line)], ParseBody(lines, Counters(originalLine, newLine)));
        diffLines := diffLines + [DiffLine(None, None, line)];
      } else if line[0] == '+' {
        PrependLinesAppend(diffLines, [DiffLine(None, newLine, line)], ParseBody(lines, here.(newLine := Inc(newLine))));
        diffLines := diffLines + [DiffLine(None, newLine, line)];
        newLine := Inc(newLine);
      } else if line[0] == '-' {
        PrependLinesAppend(diffLines, [DiffLine(originalLine, None, line)], ParseBody(lines, here.(originalLine := Inc(originalLine))));
        diffLines := diffLines + [DiffLine(originalLine, None, line)];
        originalLine := Inc(originalLine);
      } else {
        PrependLinesAppend(diffLines, [DiffLine(originalLine, newLine, line)], ParseBody(lines, Counters(Inc(originalLine), Inc(newLine))));
        diffLines := diffLines + [DiffLine(originalLine, newLine, line)];
        originalLine, newLine := Inc(originalLine), Inc(newLine);
      }
    }
    assert diffLines + [] == diffLines;
    r := Ok(BodyParse(diffLines, lines, Counters(originalLine, newLine)));
  }

  /** One iteration of the outer loop of `parseGitDiff`, from the header line on. */
  method ReadBlock(block: seq<string>, entry: Counters) returns (r: Result<BlockParse, DiffError>)
    requires |block| > 0
    ensures r == ParseBlock(block, entry)
  {
    var lines := block;
    var path := DiffHeader(lines[0]);
    if path.None? {
      return Err(MalformedHeader(lines[0]));
    }
    var aPath, bPath := path.value.0, path.value.1;
    lines := lines[1..];
    var aMode: Option<string>, bMode: Option<string> := None, None;
    if |lines| > 0 && StartsWith(lines[0], "old mode") {
      aMode := ModeCapture("old mode ", Some(lines[0]));
      lines := lines[1..];
      bMode := ModeCapture("new mode ", if |lines| > 0 then Some(lines[0]) else None);
      lines := DropLines(lines, 1);
    }
    assert ModeLines(block[1..]) == Prelude(aMode, bMode, lines);
    if |lines| == 0 || StartsWith(lines[0], "diff --git") {
      return Ok(BlockParse(FileDiff(aPath, bPath, aMode, bMode, None), lines, entry));
    }
    ghost var classified, modes := lines, (aMode, bMode);
    var simIndex := 0;
    var newFile, deletedFile, renamedFile := false, false, false;
    if StartsWith(lines[0], "new file") {
      var mode := RestOfLine("new file mode ", lines[0]);
      if mode.None? {
        return Err(MalformedFileMode(lines[0]));
      }
      lines := lines[1..];
      bMode := mode;
      aMode := None;
      newFile := true;
    } else if StartsWith(lines[0], "deleted file") {
      var mode := RestOfLine("deleted file mode ", lines[0]);
      if mode.None? {
        return Err(MalformedFileMode(lines[0]));
      }
      lines := lines[1..];
      aMode := mode;
      bMode := None;
      deletedFile := true;
    } else {
      var m := SimilarityCapture(lines[0]);
      if m.Some? {
        simIndex := DecimalValue(m.value);
        renamedFile := true;
        lines := DropLines(lines, 3);
      }
    }
    assert Classify(classified, modes.0, modes.1)
        == Ok(Classification(simIndex, newFile, deletedFile, renamedFile, aMode, bMode, lines));
    ghost var marked := lines;
    if |lines| == 0 {
      return Err(MissingIndexLine);
    }
    var index := lines[0];
    lines := lines[1..];
    if StartsWith(index, "index ") {
      lines := DropLines(lines, 1);
    }
    lines := DropLines(lines, 1);
    assert SkipMarkers(marked) == Ok(lines);
    var read := ReadBody(lines, entry);
    if read.Err? {
      return Err(read.error);
    }
    var diff := FileDiff(aPath, bPath, aMode, bMode, Some(DiffBody(simIndex, newFile, deletedFile, renamedFile, read.value.entries)));
    r := Ok(BlockParse(diff, read.value.rest, read.value.counters));
  }

  /** `parseGitDiff`: the outer loop reads one block per iteration and stops at
      the end of the text or at an empty line. The line counters live across
      iterations. */
  method ParseDiff(text: string) returns (result: Result<seq<FileDiff>, DiffError>)
    ensures result == DiffOf(text)
  {
    var lines := Split(text, EOL);
    var diffs: seq<FileDiff> := [];
    var originalLine: Option<nat>, newLine: Option<nat> := None, None;
    assert PrependDiffs([], DiffOf(text)) == DiffOf(text) by {
      if DiffOf(text).Ok? {
        assert [] + DiffOf(text).value == DiffOf(text).value;
      }
    }
    while |lines| > 0 && lines[0] != ""
      invariant DiffOf(text) == PrependDiffs(diffs, ParseBlocks(lines, Counters(originalLine, newLine)))
      decreases |lines|
    {
      var read := ReadBlock(lines, Counters(originalLine, newLine));
      BlocksStep(lines, Counters(originalLine, newLine));
      if read.Err? {
        return Err(read.error);
      }
      PrependDiffsAppend(diffs, [read.value.diff], ParseBlocks(read.value.rest, read.value.counters));
      diffs := diffs + [read.value.diff];
      lines := read.value.rest;
      originalLine, newLine := read.value.counters.originalLine, read.value.counters.newLine;
    }
    assert diffs + [] == diffs;
    result := Ok(diffs);
  }

  /** One iteration of the outer loop, seen from the whole parse. */
  lemma {:induction false} BlocksStep(lines: seq<string>, c: Counters)
    requires |lines| > 0 && lines[0] != ""
    ensures ParseBlock(lines, c).Err? ==> ParseBlocks(lines, c) == Err(ParseBlock(lines, c).error)
    ensures ParseBlock(lines, c).Ok? ==>
      ParseBlocks(lines, c) == PrependDiffs([ParseBlock(lines, c).value.diff],
                                            ParseBlocks(ParseBlock(lines, c).value.rest, ParseBlock(lines, c).value.counters))
  {
  }

  // ---- the body loop

  /** A line the body loop reads without failing. */
  predicate BodyLine(line: string) {
    line != "" && !StartsWith(line, "diff") && (StartsWith(line, "@@ ") ==> HunkRange(line).Some?)
  }

  /** The body loop reads a prefix of its lines, one entry per line with the
      line's own text, and stops exactly at the first line that ends a body. */
  lemma {:induction false} BodyConsumes(lines: seq<string>, c: Counters)
    requires ParseBody(lines, c).Ok?
    ensures Consumed(lines, ParseBody(lines, c).value)
    decreases |lines|
  {
    if !EndsBody(lines) {
      var step := BodyStep(lines[0], c).value;
      BodyConsumes(lines[1..], step.next);
      assert BodyLine(lines[0]);
      ConsumedCons(lines, ParseBody(lines, c).value, step.entry, ParseBody(lines[1..], step.next).value);
    }
  }

  /** What `BodyConsumes` states of a body parse `b` of `lines`. */
  predicate Consumed(lines: seq<string>, b: BodyParse) {
    && |b.entries| + |b.rest| == |lines|
    && b.rest == lines[|b.entries|..]
    && EndsBody(b.rest)
    && forall k :: 0 <= k < |b.entries| ==> b.entries[k].text == lines[k] && BodyLine(lines[k])
  }

  lemma {:induction false} ConsumedCons(lines: seq<string>, b: BodyParse, e: DiffLine, b': BodyParse)
    requires lines != [] && e.text == lines[0] && BodyLine(lines[0])
    requires b.entries == [e] + b'.entries && b.rest == b'.rest
    requires Consumed(lines[1..], b')
    ensures Consumed(lines, b)
  {
    forall k | 1 <= k < |b.entries|
      ensures b.entries[k].text == lines[k] && BodyLine(lines[k])
    {
      assert b.entries[k] == b'.entries[k - 1];
      assert lines[k] == lines[1..][k - 1];
    }
  }

  /** Lines the body loop reads without failing. */
  predicate ValidBody(lines: seq<string>) {
    forall k :: 0 <= k < |lines| ==> BodyLine(lines[k])
  }

  /** What follows a body does not change how the body is read, as long as it ends the body. */
  lemma {:induction false} BodyLocal(lines: seq<string>, rest: seq<string>, c: Counters)
    requires ValidBody(lines) && EndsBody(rest)
    ensures ParseBody(lines, c).Ok?
    ensures ParseBody(lines + rest, c) == Ok(ParseBody(lines, c).value.(rest := rest))
    decreases |lines|
  {
    if lines == [] {
      assert lines + rest == rest;
    } else {
      ValidBodyTail(lines);
      var step := BodyStep(lines[0], c).value;
      BodyCons(lines, rest, c);
      BodyLocal(lines[1..], rest, step.next);
    }
  }

  lemma {:induction false} ValidBodyTail(lines: seq<string>)
    requires lines != [] && ValidBody(lines)
    ensures BodyLine(lines[0]) && ValidBody(lines[1..])
  {
    forall k | 0 <= k < |lines[1..]| ensures BodyLine(lines[1..][k]) {
      assert lines[1..][k] == lines[k + 1];
    }
  }

  /** A line the body loop reads without failing is read the same whatever follows it. */
  lemma {:induction false} BodyCons(lines: seq<string>, rest: seq<string>, c: Counters)
    requires lines != [] && BodyLine(lines[0])
    ensures BodyStep(lines[0], c).Ok?
    ensures var step := BodyStep(lines[0], c).value;
      && ParseBody(lines, c) == PrependLines([step.entry], ParseBody(lines[1..], step.next))
      && ParseBody(lines + rest, c) == PrependLines([step.entry], ParseBody(lines[1..] + rest, step.next))
  {
    assert (lines + rest)[0] == lines[0];
    assert (lines + rest)[1..] == lines[1..] + rest;
  }

  /** The body loop reads a line without failing exactly when it is not a hunk
      header the hunk pattern does not match; such a header is the error. */
  lemma {:induction false} BodyStepFails(line: string, c: Counters)
    requires line != ""
    ensures BodyStep(line, c).Err? <==> StartsWith(line, "@@ ") && HunkRange(line).None?
    ensures BodyStep(line, c).Err? ==> BodyStep(line, c).error == MalformedHunkHeader(line)
    ensures BodyStep(line, c).Ok? ==> BodyStep(line, c).value.entry.text == line
  {
  }

  /** A body line starting with `@@ ` that the hunk pattern does not match makes
      the parse fail, where the source reads `changeGroup[1]` of `null`. */
  lemma {:induction false} MalformedHunkFails(lines: seq<string>, c: Counters)
    requires lines != [] && StartsWith(lines[0], "@@ ") && HunkRange(lines[0]).None?
    ensures ParseBody(lines, c) == Err(MalformedHunkHeader(lines[0]))
  {
    assert !StartsWith(lines[0], "diff") by {
      assert lines[0][0] == '@';
    }
    BodyStepFails(lines[0], c);
  }

  /** A first line that is not empty and does not match the header pattern makes
      the whole parse fail, where the source reads `path[1]` of `null`. */
  lemma {:induction false} MalformedHeaderFails(text: string)
    requires Split(text, EOL)[0] != "" && DiffHeader(Split(text, EOL)[0]).None?
    ensures DiffOf(text) == Err(MalformedHeader(Split(text, EOL)[0]))
  {
  }

  /** A body that starts with a hunk header does not depend on the counters it is entered with. */
  lemma {:induction false} HunkBodyIgnoresCounters(lines: seq<string>, c1: Counters, c2: Counters)
    requires lines != [] && StartsWith(lines[0], "@@ ")
    ensures ParseBody(lines, c1) == ParseBody(lines, c2)
  {
    assert lines[0] != "" && !StartsWith(lines[0], "diff") by {
      assert lines[0][0] == '@';
    }
    assert !EndsBody(lines);
    assert BodyStep(lines[0], c1) == BodyStep(lines[0], c2);
  }

  /** A body line other than a hunk header. */
  predicate ChangeLine(line: string) {
    line != "" && !StartsWith(line, "diff") && !StartsWith(line, "@@ ")
  }

  predicate IsAdded(line: string) {
    |line| > 0 && line[0] == '+'
  }

  predicate IsRemoved(line: string) {
    |line| > 0 && line[0] == '-'
  }

  /** The lines that take an original line number: all but the added ones. */
  function OriginalCount(lines: seq<string>): nat
    decreases |lines|
  {
    if lines == [] then 0 else (if IsAdded(lines[0]) then 0 else 1) + OriginalCount(lines[1..])
  }

  /** The lines that take a new line number: all but the removed ones. */
  function NewCount(lines: seq<string>): nat
    decreases |lines|
  {
    if lines == [] then 0 else (if IsRemoved(lines[0]) then 0 else 1) + NewCount(lines[1..])
  }

  /** The numbering of the lines after a hunk header `@@ -o,.. +n,.. @@`, stated
      in closed form: a line's original number is `o` plus the number of earlier
      lines that are not additions, its new number `n` plus the number of earlier
      lines that are not removals. */
  function Numbered(lines: seq<string>, o: nat, n: nat): (r: seq<DiffLine>)
    ensures |r| == |lines|
  {
    seq(|lines|, k requires 0 <= k < |lines| =>
      DiffLine(if IsAdded(lines[k]) then None else Some(o + OriginalCount(lines[..k])),
               if IsRemoved(lines[k]) then None else Some(n + NewCount(lines[..k])),
               lines[k]))
  }

  lemma {:induction false} NumberedCons(lines: seq<string>, o: nat, n: nat)
    requires lines != []
    ensures Numbered(lines, o, n)
         == [DiffLine(if IsAdded(lines[0]) then None else Some(o), if IsRemoved(lines[0]) then None else Some(n), lines[0])]
            + Numbered(lines[1..], o + (if IsAdded(lines[0]) then 0 else 1), n + (if IsRemoved(lines[0]) then 0 else 1))
  {
    var o' := o + (if IsAdded(lines[0]) then 0 else 1);
    var n' := n + (if IsRemoved(lines[0]) then 0 else 1);
    var r := Numbered(lines[1..], o', n');
    forall k | 1 <= k < |lines|
      ensures Numbered(lines, o, n)[k] == r[k - 1]
    {
      assert lines[..k][1..] == lines[1..][..k - 1];
      assert lines[1..][k - 1] == lines[k];
    }
    assert lines[..0] == [];
  }

  /** After a hunk header, change and context lines are numbered by running
      counters exactly as `Numbered` says, and the counters end at the starts plus
      the counts. */
  lemma {:induction false} ChangeLinesNumbered(lines: seq<string>, rest: seq<string>, o: nat, n: nat)
    requires forall k :: 0 <= k < |lines| ==> ChangeLine(lines[k])
    requires EndsBody(rest)
    ensures ParseBody(lines + rest, Counters(Some(o), Some(n)))
         == Ok(BodyParse(Numbered(lines, o, n), rest, Counters(Some(o + OriginalCount(lines)), Some(n + NewCount(lines)))))
    decreases |lines|
  {
    if lines == [] {
      assert lines + rest == rest;
    } else {
      var line := lines[0];
      assert (lines + rest)[0] == line;
      assert (lines + rest)[1..] == lines[1..] + rest;
      assert ChangeLine(line);
      var o' := o + (if IsAdded(line) then 0 else 1);
      var n' := n + (if IsRemoved(line) then 0 else 1);
      ChangeLinesNumbered(lines[1..], rest, o', n');
      NumberedCons(lines, o, n);
    }
  }

  /** A hunk: its header line comes first with no numbers, then its lines numbered
      from the header's two start numbers, whatever the counters were before. */
  lemma {:induction false} HunkNumbering(header: string, lines: seq<string>, rest: seq<string>, c: Counters, o: nat, n: nat)
    requires StartsWith(header, "@@ ") && HunkRange(header) == Some((o, n))
    requires forall k :: 0 <= k < |lines| ==> ChangeLine(lines[k])
    requires EndsBody(rest)
    ensures ParseBody([header] + (lines + rest), c)
         == Ok(BodyParse([DiffLine(None, None, header)] + Numbered(lines, o, n), rest,
                         Counters(Some(o + OriginalCount(lines)), Some(n + NewCount(lines)))))
  {
    ChangeLinesNumbered(lines, rest, o, n);
    HeaderStep(header, lines + rest, c, o, n,
      BodyParse(Numbered(lines, o, n), rest, Counters(Some(o + OriginalCount(lines)), Some(n + NewCount(lines)))));
  }

  /** A hunk header gives an entry with no numbers and restarts both counters. */
  lemma {:induction false} HeaderStep(header: string, tail: seq<string>, c: Counters, o: nat, n: nat, after: BodyParse)
    requires StartsWith(header, "@@ ") && HunkRange(header) == Some((o, n))
    requires ParseBody(tail, Counters(Some(o), Some(n))) == Ok(after)
    ensures ParseBody([header] + tail, c) == Ok(after.(entries := [DiffLine(None, None, header)] + after.entries))
  {
    var all := [header] + tail;
    HeaderLineStarts(header, tail);
    HunkHeaderStep(header, c, o, n);
    assert ParseBody(all, c) == PrependLines([DiffLine(None, None, header)], ParseBody(tail, Counters(Some(o), Some(n))));
  }

  /** A hunk header does not end the body, and the lines after it are the tail. */
  lemma {:induction false} HeaderLineStarts(header: string, tail: seq<string>)
    requires StartsWith(header, "@@ ")
    ensures !EndsBody([header] + tail) && ([header] + tail)[0] == header && ([header] + tail)[1..] == tail
    ensures header != ""
  {
    assert header[0] == '@';
  }

  /** The step a matched hunk header makes. */
  lemma {:induction false} HunkHeaderStep(header: string, c: Counters, o: nat, n: nat)
    requires StartsWith(header, "@@ ") && HunkRange(header) == Some((o, n))
    ensures header != "" && BodyStep(header, c) == Ok(Step(DiffLine(None, None, header), Counters(Some(o), Some(n))))
  {
    assert header[0] == '@';
  }

  lemma {:induction false} OriginalCountAppend(a: seq<string>, b: seq<string>)
    ensures OriginalCount(a + b) == OriginalCount(a) + OriginalCount(b)
    decreases |a|
  {
    if a == [] {
      assert a + b == b;
    } else {
      assert (a + b)[1..] == a[1..] + b;
      OriginalCountAppend(a[1..], b);
    }
  }

  lemma {:induction false} NewCountAppend(a: seq<string>, b: seq<string>)
    ensures NewCount(a + b) == NewCount(a) + NewCount(b)
    decreases |a|
  {
    if a == [] {
      assert a + b == b;
    } else {
      assert (a + b)[1..] == a[1..] + b;
      NewCountAppend(a[1..], b);
    }
  }

  /** Within a hunk, original numbers strictly increase down the lines, and so do new numbers. */
  lemma {:induction false} NumbersIncrease(lines: seq<string>, o: nat, n: nat, j: nat, k: nat)
    requires j < k < |lines|
    ensures var r := Numbered(lines, o, n);
      && (r[j].originalLine.Some? && r[k].originalLine.Some? ==> r[j].originalLine.value < r[k].originalLine.value)
      && (r[j].newLine.Some? && r[k].newLine.Some? ==> r[j].newLine.value < r[k].newLine.value)
  {
    assert lines[..k] == lines[..j] + lines[j..k];
    OriginalCountAppend(lines[..j], lines[j..k]);
    NewCountAppend(lines[..j], lines[j..k]);
    assert lines[j..k][0] == lines[j];
  }

  // ---- one block

  /** A block either ends after its header and mode lines, with no body, the
      counters untouched and the mode values as captured; or it has a body whose
      flags say one kind at most: a new file has only a new mode, a deleted file
      only an old mode, and only a rename has a similarity index. */
  lemma {:induction false} BlockKinds(lines: seq<string>, c: Counters)
    requires |lines| > 0 && ParseBlock(lines, c).Ok?
    ensures var b, m := ParseBlock(lines, c).value, ModeLines(lines[1..]);
      && (b.diff.body.None? <==> |m.rest| == 0 || StartsWith(m.rest[0], "diff --git"))
      && (b.diff.body.None? ==> b.rest == m.rest && b.counters == c && b.diff.aMode == m.aMode && b.diff.bMode == m.bMode)
      && (b.diff.body.Some? ==>
            var k := b.diff.body.value;
            && (k.newFile ==> !k.deletedFile && !k.renamedFile && b.diff.aMode.None? && b.diff.bMode.Some?)
            && (k.deletedFile ==> !k.renamedFile && b.diff.aMode.Some? && b.diff.bMode.None?)
            && (!k.renamedFile ==> k.simIndex == 0))
  {
  }

  /** A mode change without content: both modes are the digit strings of the two mode lines. */
  lemma {:induction false} ModeOnlyBlock(a: string, b: string, oldMode: string, newMode: string, rest: seq<string>, c: Counters)
    requires a != [] && b != [] && NoLineTerminator(a) && NoLineTerminator(b)
    requires forall i :: 0 <= i < |a| ==> !IsSpace(a[i])
    requires oldMode != [] && AllDigits(oldMode) && newMode != [] && AllDigits(newMode)
    requires rest == [] || StartsWith(rest[0], "diff --git")
    ensures ParseBlock(["diff --git a/" + a + " b/" + b, "old mode " + oldMode, "new mode " + newMode] + rest, c)
         == Ok(BlockParse(FileDiff(a, b, Some(oldMode), Some(newMode), None), rest, c))
  {
    var header := "diff --git a/" + a + " b/" + b;
    var lines := [header] + (["old mode " + oldMode, "new mode " + newMode] + rest);
    assert lines == [header, "old mode " + oldMode, "new mode " + newMode] + rest;
    GitHeaderPaths(a, b);
    ModePair(oldMode, newMode, rest);
    assert lines[0] == header && lines[1..] == ["old mode " + oldMode, "new mode " + newMode] + rest;
  }

  /** An `old mode` line and a `new mode` line give the two modes and leave the lines after them. */
  lemma {:induction false} ModePair(oldMode: string, newMode: string, rest: seq<string>)
    requires oldMode != [] && AllDigits(oldMode) && newMode != [] && AllDigits(newMode)
    ensures ModeLines(["old mode " + oldMode, "new mode " + newMode] + rest) == Prelude(Some(oldMode), Some(newMode), rest)
  {
    var lines := ["old mode " + oldMode, "new mode " + newMode] + rest;
    ModeCaptureRoundTrip("old mode ", oldMode, "");
    ModeCaptureRoundTrip("new mode ", newMode, "");
    assert "old mode " + oldMode + "" == "old mode " + oldMode;
    assert "new mode " + newMode + "" == "new mode " + newMode;
    assert lines[0] == "old mode " + oldMode && lines[1] == "new mode " + newMode;
    assert StartsWith("old mode " + oldMode, "old mode") by {
      assert ("old mode " + oldMode)[..8] == "old mode";
    }
    assert DropLines(lines, 2) == rest;
  }

  /** A block with an index line and the two marker lines before its body, and a
      body that starts with a hunk header (or is empty) and reads without failing. */
  predicate StandardBlock(block: seq<string>) {
    && |block| >= 4
    && DiffHeader(block[0]).Some?
    && StartsWith(block[1], "index ")
    && ValidBody(block[4..])
    && (|block| > 4 ==> StartsWith(block[4], "@@ "))
  }

  /** An `index ` line is not a mode, kind or similarity line. */
  lemma {:induction false} IndexLineKind(line: string)
    requires StartsWith(line, "index ")
    ensures !StartsWith(line, "old mode") && !StartsWith(line, "diff --git")
    ensures !StartsWith(line, "new file") && !StartsWith(line, "deleted file")
    ensures SimilarityCapture(line).None?
  {
    assert line[0] == 'i';
  }

  /** A block whose second line is an `index ` line reads its body from the fifth line on. */
  lemma {:induction false} IndexedBlockParse(lines: seq<string>, c: Counters)
    requires |lines| >= 4 && DiffHeader(lines[0]).Some? && StartsWith(lines[1], "index ")
    ensures var paths := DiffHeader(lines[0]).value;
      ParseBlock(lines, c) ==
        match ParseBody(lines[4..], c)
        case Err(e) => Err(e)
        case Ok(b) =>
          Ok(BlockParse(FileDiff(paths.0, paths.1, None, None, Some(DiffBody(0, false, false, false, b.entries))),
                        b.rest, b.counters))
  {
    var after := lines[1..];
    IndexLineKind(lines[1]);
    assert after[0] == lines[1];
    assert ModeLines(after) == Prelude(None, None, after);
    assert Classify(after, None, None) == Ok(Classification(0, false, false, false, None, None, after));
    assert SkipMarkers(after) == Ok(lines[4..]) by {
      assert after[1..][1..][1..] == lines[4..];
    }
  }

  /** A standard block has both paths of its header, no modes, none of the kind
      flags, and the entries of its body; what follows it is left for the next
      block. */
  lemma {:induction false} StandardBlockParse(block: seq<string>, rest: seq<string>, c: Counters)
    requires StandardBlock(block) && EndsBody(rest)
    ensures ParseBody(block[4..], c).Ok?
    ensures var paths, body := DiffHeader(block[0]).value, ParseBody(block[4..], c).value;
      ParseBlock(block + rest, c)
        == Ok(BlockParse(FileDiff(paths.0, paths.1, None, None, Some(DiffBody(0, false, false, false, body.entries))),
                         rest, body.counters))
  {
    var all := block + rest;
    BlockSlices(block, rest);
    BodyLocal(block[4..], rest, c);
    var body := ParseBody(block[4..], c).value;
    IndexedBlockOk(all, c, body.(rest := rest));
  }

  lemma {:induction false} BlockSlices(block: seq<string>, rest: seq<string>)
    requires |block| >= 4
    ensures (block + rest)[0] == block[0] && (block + rest)[1] == block[1]
    ensures (block + rest)[4..] == block[4..] + rest
  {
  }

  lemma {:induction false} IndexedBlockOk(lines: seq<string>, c: Counters, b: BodyParse)
    requires |lines| >= 4 && DiffHeader(lines[0]).Some? && StartsWith(lines[1], "index ")
    requires ParseBody(lines[4..], c) == Ok(b)
    ensures var paths := DiffHeader(lines[0]).value;
      ParseBlock(lines, c)
        == Ok(BlockParse(FileDiff(paths.0, paths.1, None, None, Some(DiffBody(0, false, false, false, b.entries))),
                         b.rest, b.counters))
  {
    IndexedBlockParse(lines, c);
  }

  /** The record of a standard block: the paths of its header, no modes, none
      of the kind flags, and the entries of its body read from unset counters. */
  function StandardRecord(block: seq<string>): (d: FileDiff)
    requires StandardBlock(block)
  {
    BodyLocal(block[4..], [], Counters(None, None));
    var paths := DiffHeader(block[0]).value;
    FileDiff(paths.0, paths.1, None, None,
             Some(DiffBody(0, false, false, false, ParseBody(block[4..], Counters(None, None)).value.entries)))
  }

  /** A standard block gives its record whatever follows it (as long as that
      ends its body) and whatever counters earlier blocks left. */
  lemma {:induction false} StandardBlockLocal(block: seq<string>, rest: seq<string>, c: Counters)
    requires StandardBlock(block) && EndsBody(rest)
    ensures ParseBlock(block + rest, c).Ok?
    ensures ParseBlock(block + rest, c).value.diff == StandardRecord(block)
    ensures ParseBlock(block + rest, c).value.rest == rest
  {
    StandardBlockParse(block, rest, c);
    BodyLocal(block[4..], [], Counters(None, None));
    if |block| > 4 {
      HunkBodyIgnoresCounters(block[4..], c, Counters(None, None));
    } else {
      assert block[4..] == [];
    }
  }

  // ---- the whole text

  /** The lines of a sequence of blocks, one after the other. */
  function Concat(blocks: seq<seq<string>>): seq<string>
    decreases |blocks|
  {
    if blocks == [] then [] else blocks[0] + Concat(blocks[1..])
  }

  /** The records of standard blocks, one each. */
  function StandardRecords(blocks: seq<seq<string>>): (ds: seq<FileDiff>)
    requires forall i :: 0 <= i < |blocks| ==> StandardBlock(blocks[i])
    decreases |blocks|
  {
    if blocks == [] then [] else [StandardRecord(blocks[0])] + StandardRecords(blocks[1..])
  }

  /** What follows a block ends its body: the next header, an empty line, or the end. */
  lemma {:induction false} StartsWithBlock(blocks: seq<seq<string>>, tail: seq<string>)
    requires blocks != [] ==> blocks[0] != [] && StartsWith(blocks[0][0], "diff")
    requires tail == [] || tail[0] == ""
    ensures EndsBody(Concat(blocks) + tail)
  {
    if blocks != [] {
      var all := Concat(blocks) + tail;
      assert all == blocks[0] + (Concat(blocks[1..]) + tail);
      assert all[0] == blocks[0][0];
    } else {
      assert Concat(blocks) + tail == tail;
    }
  }

  /** Standard blocks concatenated give exactly the records each gives alone,
      in order, whatever the counters they are entered with; an empty line after
      them ends the parse and nothing after it is read. */
  lemma {:induction false} StandardBlocks(blocks: seq<seq<string>>, tail: seq<string>, c: Counters)
    requires forall i :: 0 <= i < |blocks| ==> StandardBlock(blocks[i])
    requires tail == [] || tail[0] == ""
    ensures ParseBlocks(Concat(blocks) + tail, c) == Ok(StandardRecords(blocks))
    decreases |blocks|
  {
    if blocks == [] {
      assert Concat(blocks) + tail == tail;
    } else {
      var block, rest := blocks[0], Concat(blocks[1..]) + tail;
      assert StandardBlock(block);
      AppendAssoc(block, Concat(blocks[1..]), tail);
      StandardTail(blocks, tail);
      StandardBlockLocal(block, rest, c);
      var b := ParseBlock(block + rest, c).value;
      HeaderIsDiffLine(block[0]);
      StandardBlocks(blocks[1..], tail, b.counters);
      assert ParseBlocks(block + rest, c) == PrependDiffs([b.diff], ParseBlocks(rest, b.counters));
    }
  }

  /** The blocks after the first are standard too, and they (or the tail) end the first one's body. */
  lemma {:induction false} StandardTail(blocks: seq<seq<string>>, tail: seq<string>)
    requires blocks != [] && forall i :: 0 <= i < |blocks| ==> StandardBlock(blocks[i])
    requires tail == [] || tail[0] == ""
    ensures forall i :: 0 <= i < |blocks[1..]| ==> StandardBlock(blocks[1..][i])
    ensures EndsBody(Concat(blocks[1..]) + tail)
  {
    forall i | 0 <= i < |blocks[1..]| ensures StandardBlock(blocks[1..][i]) {
      assert blocks[1..][i] == blocks[i + 1];
    }
    if |blocks| > 1 {
      assert StandardBlock(blocks[1]);
      HeaderIsDiffLine(blocks[1][0]);
      assert blocks[1..][0] == blocks[1];
    }
    StartsWithBlock(blocks[1..], tail);
  }

  /** The text of standard blocks, one line each, ending with a newline and then
      either nothing or a blank line and anything at all: `parseGitDiff` gives the
      blocks' records in order. */
  lemma {:induction false} DiffOfStandardText(blocks: seq<seq<string>>, after: string)
    requires blocks != []
    requires forall i :: 0 <= i < |blocks| ==> StandardBlock(blocks[i])
    requires forall k :: 0 <= k < |Concat(blocks)| ==> '\n' !in Concat(blocks)[k]
    requires after == "" || after[0] == '\n'
    ensures DiffOf(Join(Concat(blocks), EOL) + EOL + after) == Ok(StandardRecords(blocks))
  {
    assert StandardBlock(blocks[0]);
    assert Concat(blocks) == blocks[0] + Concat(blocks[1..]);
    SplitJoinRest(Concat(blocks), EOL, after);
    var tail := Split(after, EOL);
    assert tail[0] == "" by {
      if after != "" {
        assert after[..1] == EOL;
      }
    }
    StandardBlocks(blocks, tail, Counters(None, None));
  }

  // ---- the similarity branch as written

  /** Lines 63-65 as written: on a similarity line the source calls `to_i` on
      the captured digits, which is not a method of JavaScript strings, so the
      call throws; without a match the index stays 0. */
  function SimilarityAsWritten(line: string): Result<nat, DiffError> {
    match SimilarityCapture(line)
    case Some(d) => Err(ToIUndefined(d))
    case None => Ok(0)
  }

  /** Every rename block makes the parse as written throw. */
  lemma {:induction false} RenameThrowsAsWritten(n: nat, rest: string)
    ensures SimilarityAsWritten("similarity index " + ShowNat(n) + "%" + rest) == Err(ToIUndefined(ShowNat(n)))
  {
    SimilarityRoundTrip(n, rest);
  }

  /** Lines 67-68 as written (with `to_i` made to work): two lines are shifted
      while the similarity line itself is still the first, so the
      `rename to` line is left in place. */
  function RenameRestAsWritten(lines: seq<string>): seq<string> {
    DropLines(lines, 2)
  }

  /** The lines of a rename block from its similarity line on. */
  predicate RenameLines(lines: seq<string>, n: nat) {
    && |lines| >= 6
    && StartsWith(lines[0], "similarity index " + ShowNat(n) + "%")
    && !StartsWith(lines[2], "index ")
    && StartsWith(lines[3], "index ")
  }

  /** As written, the `rename to` line is taken for the index line and the
      index line for the `---` marker, so the `---` and `+++` lines are read as
      the first two body lines. */
  lemma {:induction false} RenameMarkersAsWritten(lines: seq<string>, n: nat)
    requires RenameLines(lines, n)
    ensures SkipMarkers(RenameRestAsWritten(lines)) == Ok(lines[4..])
  {
    assert RenameRestAsWritten(lines)[0] == lines[2];
    assert RenameRestAsWritten(lines)[1..][1..] == lines[4..];
  }

  /** With the similarity line shifted too, the classification records the
      index and the rename, and the body starts right after the `+++` line. */
  lemma {:induction false} RenameMarkers(lines: seq<string>, n: nat, aMode: Option<string>, bMode: Option<string>)
    requires RenameLines(lines, n)
    ensures Classify(lines, aMode, bMode) == Ok(Classification(n, false, false, true, aMode, bMode, lines[3..]))
    ensures SkipMarkers(lines[3..]) == Ok(lines[6..])
  {
    var pre := "similarity index " + ShowNat(n) + "%";
    var rest := lines[0][|pre|..];
    assert lines[0] == pre + rest by {
      assert lines[0][..|pre|] == pre;
    }
    SimilarityRoundTrip(n, rest);
    DecimalRoundTrip(n);
    assert lines[0][0] == 's';
    assert lines[3..][1..][1..][1..] == lines[6..];
  }
}
