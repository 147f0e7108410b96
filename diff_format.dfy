/** The regular expressions `parseGitDiff` matches lines against, written out
    as predicates and scanners with the matching rules of JavaScript: `\s`,
    `\w`, `\d`, `.` (no line terminator), lazy `+?`, greedy `+`, optional
    groups, and the leftmost match of an unanchored pattern. */
module DiffFormat {
  import opened Results
  import opened JsText

  // ---- `^diff\s--git\s\w\/(.+?)\s\w\/(.+)$`

  /** The fixed part `diff\s--git\s\w\/` at the start of the line, 13 characters. */
  predicate HeaderLead(line: string) {
    |line| >= 13 && line[..4] == "diff" && IsSpace(line[4]) && line[5..10] == "--git" &&
    IsSpace(line[10]) && IsWordChar(line[11]) && line[12] == '/'
  }

  /** The whole header pattern matches with a first capture of `k` characters. */
  predicate HeaderSplitsAt(line: string, k: nat) {
    && HeaderLead(line) && k >= 1 && 17 + k <= |line|
    && NoLineTerminator(line[13..13 + k])
    && IsSpace(line[13 + k]) && IsWordChar(line[14 + k]) && line[15 + k] == '/'
    && NoLineTerminator(line[16 + k..])
  }

  /** The smallest first-capture length, from `k` on, for which the header pattern matches. */
  function LeastHeaderSplit(line: string, k: nat): (r: Option<nat>)
    ensures r.Some? ==> k <= r.value && HeaderSplitsAt(line, r.value)
    decreases |line| - k
  {
    if 17 + k > |line| then None
    else if HeaderSplitsAt(line, k) then Some(k)
    else LeastHeaderSplit(line, k + 1)
  }

  lemma {:induction false} LeastHeaderSplitIsLeast(line: string, k: nat)
    requires k >= 1
    ensures var r := LeastHeaderSplit(line, k);
      && (r.Some? ==> k <= r.value && HeaderSplitsAt(line, r.value))
      && (r.Some? ==> forall j :: k <= j < r.value ==> !HeaderSplitsAt(line, j))
      && (r.None? ==> forall j :: k <= j ==> !HeaderSplitsAt(line, j))
    decreases |line| - k
  {
    if 17 + k <= |line| && !HeaderSplitsAt(line, k) {
      LeastHeaderSplitIsLeast(line, k + 1);
    }
  }

  /** The two captures of the header pattern, `[aPath, bPath]`. */
  function DiffHeader(line: string): (r: Option<(string, string)>)
    ensures r.Some? ==> var (a, b) := r.value;
      && a != [] && b != [] && HeaderSplitsAt(line, |a|)
      && line[13..13 + |a|] == a && line[16 + |a|..] == b
  {
    match LeastHeaderSplit(line, 1)
    case None => None
    case Some(k) => Some((line[13..13 + k], line[16 + k..]))
  }

  /** The header matches exactly when the pattern does for some split; the lazy
      first capture is then the shortest one for which the rest of the line still
      matches, and the second capture is all the rest. */
  lemma {:induction false} DiffHeaderMatch(line: string)
    ensures DiffHeader(line).None? <==> forall k :: !HeaderSplitsAt(line, k)
    ensures DiffHeader(line).Some? ==>
      var (a, b) := DiffHeader(line).value;
      && HeaderSplitsAt(line, |a|)
      && a == line[13..13 + |a|] && b == line[16 + |a|..]
      && forall j: nat :: j < |a| ==> !HeaderSplitsAt(line, j)
  {
    LeastHeaderSplitIsLeast(line, 1);
  }

  /** A header line starts with `diff`. */
  lemma {:induction false} HeaderIsDiffLine(line: string)
    requires DiffHeader(line).Some?
    ensures StartsWith(line, "diff") && line != ""
  {
    DiffHeaderMatch(line);
  }

  /** A split with no shorter split before it is the one the lazy capture takes. */
  lemma {:induction false} DiffHeaderAt(line: string, k: nat)
    requires HeaderSplitsAt(line, k)
    requires forall j :: 1 <= j < k ==> !HeaderSplitsAt(line, j)
    ensures DiffHeader(line) == Some((line[13..13 + k], line[16 + k..]))
  {
    LeastHeaderSplitIsLeast(line, 1);
  }

  /** No split falls inside a first capture free of whitespace. */
  lemma {:induction false} NoSplitInside(line: string, k: nat)
    requires 13 + k <= |line|
    requires forall i :: 13 <= i < 13 + k ==> !IsSpace(line[i])
    ensures forall j :: 1 <= j < k ==> !HeaderSplitsAt(line, j)
  {
  }

  /** The pieces of a header line, placed by position. */
  lemma {:induction false} HeaderPieces(s1: char, s2: char, w1: char, s3: char, w2: char, a: string, b: string, line: string)
    requires line == "diff" + [s1] + "--git" + [s2, w1, '/'] + (a + ([s3, w2, '/'] + b))
    ensures |line| == 16 + |a| + |b|
    ensures line[..4] == "diff" && line[4] == s1 && line[5..10] == "--git"
    ensures line[10] == s2 && line[11] == w1 && line[12] == '/'
    ensures line[13..13 + |a|] == a && line[16 + |a|..] == b
    ensures line[13 + |a|] == s3 && line[14 + |a|] == w2 && line[15 + |a|] == '/'
  {
    var pre := "diff" + [s1] + "--git" + [s2, w1, '/'];
    var k := |a|;
    assert |pre| == 13;
    assert line[..13] == pre && line[13..] == a + ([s3, w2, '/'] + b);
    assert line[..4] == pre[..4] && line[5..10] == pre[5..10];
    assert line[13..][..k] == a && line[13..][k..] == [s3, w2, '/'] + b;
    assert line[13..13 + k] == line[13..][..k];
    assert line[13 + k..] == line[13..][k..];
    assert line[16 + k..] == line[13 + k..][3..];
  }

  /** A header with any whitespace and word characters in the fixed places gives
      back its two paths, provided the first has no whitespace (a second path may
      hold anything but a line terminator, even ` b/`). */
  lemma {:induction false} DiffHeaderRoundTrip(s1: char, s2: char, w1: char, s3: char, w2: char, a: string, b: string)
    requires IsSpace(s1) && IsSpace(s2) && IsSpace(s3) && IsWordChar(w1) && IsWordChar(w2)
    requires a != [] && b != [] && NoLineTerminator(a) && NoLineTerminator(b)
    requires forall i :: 0 <= i < |a| ==> !IsSpace(a[i])
    ensures DiffHeader("diff" + [s1] + "--git" + [s2] + [w1] + "/" + a + [s3] + [w2] + "/" + b) == Some((a, b))
  {
    var line := "diff" + [s1] + "--git" + [s2, w1, '/'] + (a + ([s3, w2, '/'] + b));
    assert "diff" + [s1] + "--git" + [s2] + [w1] + "/" + a + [s3] + [w2] + "/" + b == line;
    HeaderPieces(s1, s2, w1, s3, w2, a, b, line);
    var k := |a|;
    assert HeaderLead(line);
    assert HeaderSplitsAt(line, k);
    assert forall i :: 13 <= i < 13 + k ==> !IsSpace(line[i]) by {
      forall i | 13 <= i < 13 + k ensures !IsSpace(line[i]) {
        assert line[i] == a[i - 13];
      }
    }
    NoSplitInside(line, k);
    DiffHeaderAt(line, k);
  }

  /** The usual git header: `diff --git a/<aPath> b/<bPath>`. */
  lemma {:induction false} GitHeaderPaths(a: string, b: string)
    requires a != [] && b != [] && NoLineTerminator(a) && NoLineTerminator(b)
    requires forall i :: 0 <= i < |a| ==> !IsSpace(a[i])
    ensures DiffHeader("diff --git a/" + a + " b/" + b) == Some((a, b))
  {
    DiffHeaderRoundTrip(' ', ' ', 'a', ' ', 'b', a, b);
    GitHeaderText(a, b);
  }

  lemma {:induction false} GitHeaderText(a: string, b: string)
    ensures "diff" + [' '] + "--git" + [' '] + ['a'] + "/" + a + [' '] + ['b'] + "/" + b
         == "diff --git a/" + a + " b/" + b
  {
    var lead := "diff" + [' '] + "--git" + [' '] + ['a'] + "/";
    assert lead == "diff --git a/";
    var x := lead + a;
    assert x + [' '] + ['b'] + "/" == x + " b/";
  }

  /** With a space in the first path, the lazy capture stops at the first ` x/`. */
  lemma {:induction false} HeaderSplitsEarly()
    ensures DiffHeader("diff --git a/x b/y b/z") == Some(("x", "y b/z"))
  {
    GitHeaderPaths("x", "y b/z");
    assert "diff --git a/" + "x" + " b/" + "y b/z" == "diff --git a/x b/y b/z";
  }

  // ---- `^old mode (\d+)` and `^new mode (\d+)`

  /** The digits captured by `^<prefix>(\d+)` on a line that may be missing
      (`exec(undefined)` reads the text "undefined" and fails). */
  function ModeCapture(prefix: string, line: Option<string>): (r: Option<string>)
    ensures r.Some? ==> line.Some? && r.value != [] && AllDigits(r.value) && StartsWith(line.value, prefix + r.value)
    ensures r.Some? ==> var n := |prefix| + |r.value|; n < |line.value| ==> !IsDigit(line.value[n])
    ensures line.Some? && StartsWith(line.value, prefix) && |line.value| > |prefix| && IsDigit(line.value[|prefix|]) ==> r.Some?
  {
    if line.Some? && StartsWith(line.value, prefix) && DigitPrefix(line.value[|prefix|..]) != "" then
      Some(DigitPrefix(line.value[|prefix|..]))
    else None
  }

  /** The mode is the whole digit run after the prefix, whatever follows it. */
  lemma {:induction false} ModeCaptureRoundTrip(prefix: string, digits: string, rest: string)
    requires digits != [] && AllDigits(digits)
    requires rest != [] ==> !IsDigit(rest[0])
    ensures ModeCapture(prefix, Some(prefix + digits + rest)) == Some(digits)
  {
    var line := prefix + digits + rest;
    assert line[..|prefix|] == prefix;
    assert line[|prefix|..] == digits + rest;
    DigitPrefixOf(digits, rest);
  }

  /** What lines 38-39 store as written: the array `exec` returns, the whole
      match followed by the captured digits, rather than the digits. */
  function ModeMatchAsWritten(prefix: string, line: Option<string>): (r: Option<seq<string>>)
  {
    match ModeCapture(prefix, line)
    case None => None
    case Some(d) => Some([prefix + d, d])
  }

  /** The stored value is never the mode string itself: for `old mode 100644` it is
      `["old mode 100644", "100644"]`, whose first element is the whole matched text. */
  lemma {:induction false} ModeAsWrittenIsMatchArray(digits: string, rest: string)
    requires digits != [] && AllDigits(digits)
    requires rest != [] ==> !IsDigit(rest[0])
    ensures ModeMatchAsWritten("old mode ", Some("old mode " + digits + rest)) == Some(["old mode " + digits, digits])
    ensures ModeCapture("old mode ", Some("old mode " + digits + rest)) == Some(digits)
    ensures "old mode " + digits != digits
  {
    ModeCaptureRoundTrip("old mode ", digits, rest);
    assert |"old mode " + digits| > |digits|;
  }

  // ---- `^new file mode (.+)$` and `^deleted file mode (.+)$`

  /** The capture of `^<prefix>(.+)$`: the rest of the line, non-empty and free of line terminators. */
  function RestOfLine(prefix: string, line: string): (r: Option<string>)
    ensures r.Some? <==> StartsWith(line, prefix) && |line| > |prefix| && NoLineTerminator(line[|prefix|..])
    ensures r.Some? ==> line == prefix + r.value
  {
    if StartsWith(line, prefix) && |line| > |prefix| && NoLineTerminator(line[|prefix|..]) then
      Some(line[|prefix|..])
    else None
  }

  // ---- `^similarity index (\d+)\%`

  /** The digits of `^similarity index (\d+)\%`: the greedy digit run must be followed by `%`. */
  function SimilarityCapture(line: string): (r: Option<string>)
    ensures r.Some? ==> r.value != [] && AllDigits(r.value) && StartsWith(line, "similarity index " + r.value + "%")
  {
    if StartsWith(line, "similarity index ") then
      var d := DigitPrefix(line[17..]);
      if d != "" && 17 + |d| < |line| && line[17 + |d|] == '%' then Some(d) else None
    else None
  }

  /** A rendered percentage is read back. */
  lemma {:induction false} SimilarityRoundTrip(n: nat, rest: string)
    ensures SimilarityCapture("similarity index " + ShowNat(n) + "%" + rest) == Some(ShowNat(n))
  {
    var line := "similarity index " + ShowNat(n) + "%" + rest;
    DecimalRoundTrip(n);
    assert line[..17] == "similarity index ";
    assert line[17..] == ShowNat(n) + ("%" + rest);
    DigitPrefixOf(ShowNat(n), "%" + rest);
    assert line[17 + |ShowNat(n)|] == '%';
  }

  // ---- `@@ -(\d+)(,\d+)? [+](\d+)(,\d+)?`, unanchored

  /** The position after an optional `,\d+` group at `q`. */
  function AfterLength(line: string, q: nat): (r: nat)
    ensures q <= r
  {
    if q < |line| && line[q] == ',' && DigitPrefix(line[q + 1..]) != "" then q + 1 + |DigitPrefix(line[q + 1..])| else q
  }

  /** The captured start numbers when the hunk pattern matches at position `p`.
      The digit groups are greedy and the optional `,\d+` after the first start is
      taken when it is there; no backtracking into them can succeed, so the match
      at `p` is unique. */
  function HunkAt(line: string, p: nat): (r: Option<(nat, nat)>)
    ensures r.Some? ==> p + 4 < |line| && line[p..p + 4] == "@@ -" && IsDigit(line[p + 4])
  {
    if !(p + 4 <= |line| && line[p..p + 4] == "@@ -") then None
    else
      var d1 := DigitPrefix(line[p + 4..]);
      var q := AfterLength(line, p + 4 + |d1|);
      if d1 == "" || !(q + 2 <= |line| && line[q..q + 2] == " +") then None
      else
        var d3 := DigitPrefix(line[q + 2..]);
        if d3 == "" then None else Some((DecimalValue(d1), DecimalValue(d3)))
  }

  /** The leftmost position, from `p` on, where the hunk pattern matches. */
  function FirstHunk(line: string, p: nat): (r: Option<nat>)
    ensures r.Some? ==> p <= r.value && HunkAt(line, r.value).Some?
    decreases |line| - p
  {
    if p + 4 > |line| then None
    else if HunkAt(line, p).Some? then Some(p)
    else FirstHunk(line, p + 1)
  }

  /** No match can start fewer than four characters from the end. */
  lemma {:induction false} HunkAtTooLate(line: string)
    ensures forall j: nat :: j + 4 > |line| ==> HunkAt(line, j).None?
  {
  }

  lemma {:induction false} FirstHunkIsLeftmost(line: string, p: nat)
    ensures var r := FirstHunk(line, p);
      && (r.Some? ==> p <= r.value <= |line| && HunkAt(line, r.value).Some?)
      && (r.Some? ==> forall j :: p <= j < r.value ==> HunkAt(line, j).None?)
      && (r.None? ==> forall j :: p <= j ==> HunkAt(line, j).None?)
    decreases |line| - p
  {
    if p + 4 > |line| {
      HunkAtTooLate(line);
    } else if HunkAt(line, p).None? {
      var r := FirstHunk(line, p + 1);
      FirstHunkIsLeftmost(line, p + 1);
      assert FirstHunk(line, p) == r;
      if r.Some? {
        forall j | p <= j < r.value ensures HunkAt(line, j).None? {
          if j > p { assert p + 1 <= j < r.value; }
        }
      } else {
        forall j | p <= j ensures HunkAt(line, j).None? {
          if j > p { assert p + 1 <= j; }
        }
      }
    }
  }

  /** `[originalStart, newStart]` of the leftmost match of the hunk pattern, as numbers. */
  function HunkRange(line: string): (r: Option<(nat, nat)>)
  {
    match FirstHunk(line, 0)
    case None => None
    case Some(p) => HunkAt(line, p)
  }

  /** The range is that of the leftmost position where the pattern matches,
      and there is none exactly when the pattern matches nowhere. */
  lemma {:induction false} HunkRangeLeftmost(line: string)
    ensures HunkRange(line).None? <==> forall j :: HunkAt(line, j).None?
    ensures HunkRange(line).Some? ==> exists p :: HunkRange(line) == HunkAt(line, p) && forall j :: j < p ==> HunkAt(line, j).None?
  {
    FirstHunkIsLeftmost(line, 0);
    match FirstHunk(line, 0)
    case None =>
    case Some(p) =>
      assert HunkRange(line) == HunkAt(line, p);
  }

  /** `,<length>` when a length is given. */
  function LengthPart(len: Option<nat>): string {
    if len.Some? then "," + ShowNat(len.value) else ""
  }

  /** The hunk pattern matches at the start of `@@ -<d1><len> +<d3><rest>`. */
  lemma {:induction false} HunkAtStart(line: string, d1: string, len: string, d3: string, rest: string)
    requires d1 != [] && AllDigits(d1) && d3 != [] && AllDigits(d3)
    requires len == [] || (|len| >= 2 && len[0] == ',' && AllDigits(len[1..]))
    requires rest != [] ==> !IsDigit(rest[0])
    requires line == "@@ -" + (d1 + (len + (" +" + (d3 + rest))))
    ensures HunkAt(line, 0) == Some((DecimalValue(d1), DecimalValue(d3)))
  {
    var q' := 4 + |d1| + |len|;
    HunkLineSlices(line, d1, len, d3, rest, q');
    DigitPrefixOf(d1, len + (" +" + (d3 + rest)));
    AfterLengthOf(line, 4 + |d1|, len, " +" + (d3 + rest));
    DigitPrefixOf(d3, rest);
    assert DigitPrefix(line[4..]) == d1;
    assert AfterLength(line, 4 + |d1|) == q';
    assert DigitPrefix(line[q' + 2..]) == d3;
    HunkAtOf(line, d1, q', d3);
  }

  /** Where the pieces of `@@ -<d1><len> +<d3><rest>` sit. */
  lemma {:induction false} HunkLineSlices(line: string, d1: string, len: string, d3: string, rest: string, q': nat)
    requires line == "@@ -" + (d1 + (len + (" +" + (d3 + rest)))) && q' == 4 + |d1| + |len|
    ensures 4 <= |line| && line[..4] == "@@ -" && line[4..] == d1 + (len + (" +" + (d3 + rest)))
    ensures line[4 + |d1|..] == len + (" +" + (d3 + rest)) && (" +" + (d3 + rest))[0] == ' '
    ensures q' + 2 <= |line| && line[q'..q' + 2] == " +" && line[q' + 2..] == d3 + rest
  {
    Suffixes("@@ -", d1, len, " +", d3 + rest);
    assert line[q'..q' + 2] == line[q'..][..2];
  }

  lemma {:induction false} Reassociate(a: string, b: string, c: string, d: string, e: string, f: string, g: string)
    ensures a + b + c + d + e + f + g == a + (b + (c + (d + (e + (f + g)))))
  {
  }

  /** The suffixes of a string made of five pieces. */
  lemma {:induction false} Suffixes(a: string, b: string, c: string, d: string, e: string)
    ensures var s := a + (b + (c + (d + e)));
      && s[..|a|] == a
      && s[|a|..] == b + (c + (d + e))
      && s[|a| + |b|..] == c + (d + e)
      && s[|a| + |b| + |c|..] == d + e
      && s[|a| + |b| + |c| + |d|..] == e
  {
  }

  /** The optional length group at `q` is exactly `len`. */
  lemma {:induction false} AfterLengthOf(line: string, q: nat, len: string, after: string)
    requires q <= |line| && line[q..] == len + after
    requires len == [] || (|len| >= 2 && len[0] == ',' && AllDigits(len[1..]))
    requires after != [] && after[0] == ' '
    ensures AfterLength(line, q) == q + |len|
  {
    if len != [] {
      assert line[q + 1..] == len[1..] + after;
      DigitPrefixOf(len[1..], after);
    } else {
      assert line[q] == ' ';
    }
  }

  /** `HunkAt` at 0, from the pieces it reads. */
  lemma {:induction false} HunkAtOf(line: string, d1: string, q: nat, d3: string)
    requires 4 <= |line| && line[..4] == "@@ -"
    requires d1 != "" && DigitPrefix(line[4..]) == d1
    requires AfterLength(line, 4 + |d1|) == q
    requires q + 2 <= |line| && line[q..q + 2] == " +"
    requires d3 != "" && DigitPrefix(line[q + 2..]) == d3
    ensures HunkAt(line, 0) == Some((DecimalValue(d1), DecimalValue(d3)))
  {
    assert line[0..4] == line[..4];
  }

  /** A hunk header `@@ -o[,l] +n[,m]<tail>` gives `(o, n)`, whether or not the
      lengths are there, for any tail that does not continue the last number. */
  lemma {:induction false} HunkRangeRoundTrip(o: nat, oLen: Option<nat>, n: nat, nLen: Option<nat>, tail: string)
    requires tail != [] ==> !IsDigit(tail[0])
    ensures HunkRange("@@ -" + ShowNat(o) + LengthPart(oLen) + " +" + ShowNat(n) + LengthPart(nLen) + tail) == Some((o, n))
  {
    DecimalRoundTrip(o);
    DecimalRoundTrip(n);
    if oLen.Some? {
      DecimalRoundTrip(oLen.value);
      assert LengthPart(oLen)[1..] == ShowNat(oLen.value);
    }
    var rest := LengthPart(nLen) + tail;
    if nLen.Some? {
      assert rest[0] == ',';
    }
    var line := "@@ -" + ShowNat(o) + LengthPart(oLen) + " +" + ShowNat(n) + LengthPart(nLen) + tail;
    Reassociate("@@ -", ShowNat(o), LengthPart(oLen), " +", ShowNat(n), LengthPart(nLen), tail);
    HunkAtStart(line, ShowNat(o), LengthPart(oLen), ShowNat(n), rest);
  }
}
