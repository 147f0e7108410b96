/** The JavaScript string operations the parsers are built from: `split`,
    `join`, `trim`, `slice`, `indexOf`, the character classes of regular
    expressions, and decimal digits. Strings are sequences of characters. */
module JsText {
  import opened Results

  /** The line separator. The source splits on the platform's `os.EOL`; it is fixed to a line feed. */
  const EOL: string := "\n"

  /** The characters matched by `\s` in a regular expression and removed by `String.prototype.trim`. */
  predicate IsSpace(c: char) {
    var n := c as int;
    n == 0x09 || n == 0x0A || n == 0x0B || n == 0x0C || n == 0x0D || n == 0x20 || n == 0xA0 ||
    n == 0x1680 || (0x2000 <= n <= 0x200A) || n == 0x2028 || n == 0x2029 || n == 0x202F ||
    n == 0x205F || n == 0x3000 || n == 0xFEFF
  }

  /** The characters that `.` in a regular expression does not match. */
  predicate IsLineTerminator(c: char) {
    c == '\n' || c == '\r' || c as int == 0x2028 || c as int == 0x2029
  }

  /** `\d` */
  predicate IsDigit(c: char) {
    '0' <= c <= '9'
  }

  /** `\w` */
  predicate IsWordChar(c: char) {
    'a' <= c <= 'z' || 'A' <= c <= 'Z' || IsDigit(c) || c == '_'
  }

  predicate AllSpace(s: string) {
    forall i :: 0 <= i < |s| ==> IsSpace(s[i])
  }

  /** Every character is matched by `.` */
  predicate NoLineTerminator(s: string) {
    forall i :: 0 <= i < |s| ==> !IsLineTerminator(s[i])
  }

  predicate AllDigits(s: string) {
    forall i :: 0 <= i < |s| ==> IsDigit(s[i])
  }

  /** `s.indexOf(prefix) == 0`, and a regular expression anchored with `^` on a literal. */
  predicate StartsWith(s: string, prefix: string) {
    |prefix| <= |s| && s[..|prefix|] == prefix
  }

  /** `s.slice(n)` for a non-negative `n`. */
  function Drop(s: string, n: nat): string {
    if n <= |s| then s[n..] else ""
  }

  /** `s.slice(0, n)` for a non-negative `n`. */
  function Take(s: string, n: nat): string {
    if n <= |s| then s[..n] else s
  }

  /** `lines.shift()` applied `n` times, keeping what is left. */
  function DropLines(lines: seq<string>, n: nat): seq<string> {
    if n <= |lines| then lines[n..] else []
  }

  /** `s.split(sep)` for a non-empty separator: the pieces between the
      leftmost non-overlapping occurrences of `sep`. Splitting `""` gives `[""]`. */
  function Split(s: string, sep: string): (parts: seq<string>)
    requires |sep| > 0
    ensures |parts| >= 1
    decreases |s|
  {
    if |s| < |sep| then [s]
    else if s[..|sep|] == sep then [""] + Split(s[|sep|..], sep)
    else
      var rest := Split(s[1..], sep);
      [[s[0]] + rest[0]] + rest[1..]
  }

  /** A character in front of a text: a part of its own when it is the
      (one-character) separator, else the front of the first part. */
  lemma {:induction false} SplitCons(c: char, s: string, sep: string)
    requires |sep| == 1
    ensures Split([c] + s, sep) == if [c] == sep then [""] + Split(s, sep) else [[c] + Split(s, sep)[0]] + Split(s, sep)[1..]
  {
    var t := [c] + s;
    assert t[..1] == [c] && t[1..] == s;
  }

  lemma {:induction false} SplitConsOther(c: char, s: string, sep: string)
    requires |sep| == 1 && [c] != sep
    ensures Split([c] + s, sep) == [[c] + Split(s, sep)[0]] + Split(s, sep)[1..]
  {
    SplitCons(c, s, sep);
  }

  /** Without the separator, `split` gives the text back whole. */
  lemma {:induction false} SplitWithout(x: string, sep: string)
    requires |sep| > 0
    ensures sep[0] !in x ==> Split(x, sep) == [x]
  {
    if sep[0] !in x {
      SplitUnseparated(x, sep);
    }
  }

  /** The pieces of a split on one character hold no separator, and there is
      more than one piece exactly when the separator occurs. */
  lemma {:induction false} SplitPieces(s: string, sep: string)
    requires |sep| == 1
    ensures forall i :: 0 <= i < |Split(s, sep)| ==> sep[0] !in Split(s, sep)[i]
    ensures |Split(s, sep)| > 1 <==> sep[0] in s
    decreases |s|
  {
    if s != [] {
      var rest := Split(s[1..], sep);
      SplitPieces(s[1..], sep);
      assert s == [s[0]] + s[1..];
      SplitCons(s[0], s[1..], sep);
      if [s[0]] == sep {
        SeparatorPieces(s[1..], sep);
      } else {
        OtherPieces(s[0], s[1..], sep);
      }
    }
  }

  lemma {:induction false} SeparatorPieces(t: string, sep: string)
    requires |sep| == 1
    requires forall i :: 0 <= i < |Split(t, sep)| ==> sep[0] !in Split(t, sep)[i]
    ensures forall i :: 0 <= i < |[""] + Split(t, sep)| ==> sep[0] !in ([""] + Split(t, sep))[i]
  {
    var parts := [""] + Split(t, sep);
    forall i | 0 <= i < |parts|
      ensures sep[0] !in parts[i]
    {
      if i > 0 {
        assert parts[i] == Split(t, sep)[i - 1];
      }
    }
  }

  lemma {:induction false} OtherPieces(c: char, t: string, sep: string)
    requires |sep| == 1 && [c] != sep
    requires forall i :: 0 <= i < |Split(t, sep)| ==> sep[0] !in Split(t, sep)[i]
    requires |Split(t, sep)| > 1 <==> sep[0] in t
    ensures var parts := [[c] + Split(t, sep)[0]] + Split(t, sep)[1..];
      && (forall i :: 0 <= i < |parts| ==> sep[0] !in parts[i])
      && (|parts| > 1 <==> sep[0] in [c] + t)
  {
    var rest := Split(t, sep);
    var parts := [[c] + rest[0]] + rest[1..];
    assert c != sep[0] by {
      assert sep == [sep[0]];
    }
    forall i | 0 <= i < |parts|
      ensures sep[0] !in parts[i]
    {
      if i > 0 {
        assert parts[i] == rest[i];
      } else {
        NotInAppend(sep[0], [c], rest[0]);
      }
    }
    assert sep[0] in [c] + t <==> sep[0] in t;
  }

  /** `trim` never lengthens a text. */
  lemma {:induction false} TrimShorter(s: string)
    ensures |Trim(s)| <= |s|
  {
    var p1, y, p2 := TrimParts(s);
  }

  /** A character absent from a range of indices is absent from that slice. */
  lemma {:induction false} SliceWithout(s: string, c: char, from: nat, to: nat)
    requires from <= to <= |s| && forall j :: from <= j < to ==> s[j] != c
    ensures c !in s[from..to]
  {
    forall k | 0 <= k < to - from
      ensures s[from..to][k] != c
    {
      assert s[from..to][k] == s[from + k];
    }
  }

  /** Splitting two texts joined by a one-character separator gives the parts
      of the first, then those of the second. */
  lemma {:induction false} SplitAround(a: string, sep: string, b: string)
    requires |sep| == 1
    ensures Split(a + sep + b, sep) == Split(a, sep) + Split(b, sep)
    decreases |a|
  {
    if a == [] {
      var s := a + sep + b;
      assert s == sep + b && s[..1] == sep && s[1..] == b;
      assert Split("", sep) == [""];
    } else {
      var tail := a[1..] + sep + b;
      assert a + sep + b == [a[0]] + tail;
      assert a == [a[0]] + a[1..];
      SplitAround(a[1..], sep, b);
      SplitConsAppend(a[0], tail, a[1..], sep, Split(b, sep));
    }
  }

  /** A character in front of two texts whose splits differ by trailing parts only. */
  lemma {:induction false} SplitConsAppend(c: char, t: string, u: string, sep: string, more: seq<string>)
    requires |sep| == 1 && Split(t, sep) == Split(u, sep) + more
    ensures Split([c] + t, sep) == Split([c] + u, sep) + more
  {
    if [c] == sep {
      SeparatorConsAppend(c, t, u, sep, more);
    } else {
      OtherConsAppend(c, t, u, sep, more);
    }
  }

  lemma {:induction false} SeparatorConsAppend(c: char, t: string, u: string, sep: string, more: seq<string>)
    requires |sep| == 1 && [c] == sep && Split(t, sep) == Split(u, sep) + more
    ensures Split([c] + t, sep) == Split([c] + u, sep) + more
  {
    var pu := Split(u, sep);
    SplitCons(c, t, sep);
    SplitCons(c, u, sep);
    AppendAssoc([""], pu, more);
  }

  lemma {:induction false} OtherConsAppend(c: char, t: string, u: string, sep: string, more: seq<string>)
    requires |sep| == 1 && [c] != sep && Split(t, sep) == Split(u, sep) + more
    ensures Split([c] + t, sep) == Split([c] + u, sep) + more
  {
    var pu := Split(u, sep);
    var pt := Split(t, sep);
    SplitConsOther(c, t, sep);
    SplitConsOther(c, u, sep);
    assert pt[0] == pu[0] && pt[1..] == pu[1..] + more;
    AppendAssoc([[c] + pu[0]], pu[1..], more);
  }

  /** One more one-character separator at the end adds one empty part. */
  lemma {:induction false} SplitTrailingSeparator(s: string, sep: string)
    requires |sep| == 1
    ensures Split(s + sep, sep) == Split(s, sep) + [""]
    decreases |s|
  {
    var t := s + sep;
    if |s| == 0 {
      assert t == sep && t[1..] == "";
    } else if s[..1] == sep {
      assert t[..1] == sep && t[1..] == s[1..] + sep;
      SplitTrailingSeparator(s[1..], sep);
    } else {
      assert t[..1] == s[..1] && t[1..] == s[1..] + sep;
      SplitTrailingSeparator(s[1..], sep);
      var rest := Split(s[1..], sep);
      assert Split(t[1..], sep)[1..] == rest[1..] + [""];
    }
  }

  /** `parts.join(sep)` */
  function Join(parts: seq<string>, sep: string): string {
    if |parts| == 0 then ""
    else if |parts| == 1 then parts[0]
    else parts[0] + sep + Join(parts[1..], sep)
  }

  /** `parts[parts.length - 1]`, what `pop()` returns. */
  function Last(parts: seq<string>): string
    requires |parts| > 0
  {
    parts[|parts| - 1]
  }

  /** Putting a character in front of the first piece puts it in front of the joined text. */
  lemma {:induction false} JoinConsFirst(c: char, parts: seq<string>, sep: string)
    requires |parts| > 0
    ensures Join([[c] + parts[0]] + parts[1..], sep) == [c] + Join(parts, sep)
  {
    var longer := [[c] + parts[0]] + parts[1..];
    assert longer[1..] == parts[1..];
    if |parts| > 1 {
      assert Join(longer, sep) == ([c] + parts[0]) + sep + Join(parts[1..], sep);
    }
  }

  lemma {:induction false} JoinCons(x: string, parts: seq<string>, sep: string)
    requires |parts| > 0
    ensures Join([x] + parts, sep) == x + sep + Join(parts, sep)
  {
    assert ([x] + parts)[1..] == parts;
  }

  /** Joining the pieces of a split with the same separator gives back the text. */
  lemma {:induction false} JoinSplit(s: string, sep: string)
    requires |sep| > 0
    ensures Join(Split(s, sep), sep) == s
    decreases |s|
  {
    if |s| < |sep| {
    } else if s[..|sep|] == sep {
      var tail := s[|sep|..];
      JoinSplit(tail, sep);
      JoinCons("", Split(tail, sep), sep);
      assert s == "" + sep + tail;
    } else {
      JoinSplit(s[1..], sep);
      JoinConsFirst(s[0], Split(s[1..], sep), sep);
      assert s == [s[0]] + s[1..];
    }
  }

  /** A piece free of the separator's first character, followed by the separator, is split off whole. */
  lemma {:induction false} SplitSeparated(x: string, sep: string, rest: string)
    requires |sep| > 0 && sep[0] !in x
    ensures Split(x + sep + rest, sep) == [x] + Split(rest, sep)
    decreases |x|
  {
    var s := x + sep + rest;
    if x == [] {
      assert s == sep + rest;
      assert s[..|sep|] == sep && s[|sep|..] == rest;
    } else {
      assert s[0] == x[0] != sep[0];
      assert s[..|sep|] != sep by { assert s[..|sep|][0] == s[0]; }
      assert s[1..] == x[1..] + sep + rest;
      SplitSeparated(x[1..], sep, rest);
      assert [x[0]] + x[1..] == x;
    }
  }

  /** Text free of the separator's first character is one piece. */
  lemma {:induction false} SplitUnseparated(x: string, sep: string)
    requires |sep| > 0 && sep[0] !in x
    ensures Split(x, sep) == [x]
    decreases |x|
  {
    if |x| >= |sep| {
      assert x[..|sep|] != sep by { assert x[..|sep|][0] == x[0]; }
      SplitUnseparated(x[1..], sep);
      assert [x[0]] + x[1..] == x;
    }
  }

  /** Splitting undoes joining when no piece holds the separator's first character. */
  lemma {:induction false} SplitJoin(parts: seq<string>, sep: string)
    requires |sep| > 0 && |parts| > 0
    requires forall i :: 0 <= i < |parts| ==> sep[0] !in parts[i]
    ensures Split(Join(parts, sep), sep) == parts
    decreases |parts|
  {
    if |parts| == 1 {
      SplitUnseparated(parts[0], sep);
    } else {
      SplitSeparated(parts[0], sep, Join(parts[1..], sep));
      SplitJoin(parts[1..], sep);
      assert [parts[0]] + parts[1..] == parts;
    }
  }

  /** Splitting joined pieces followed by a separator and more text gives the
      pieces, then the pieces of the rest. */
  lemma {:induction false} SplitJoinRest(parts: seq<string>, sep: string, rest: string)
    requires |sep| > 0 && |parts| > 0
    requires forall i :: 0 <= i < |parts| ==> sep[0] !in parts[i]
    ensures Split(Join(parts, sep) + sep + rest, sep) == parts + Split(rest, sep)
    decreases |parts|
  {
    if |parts| == 1 {
      SplitSeparated(parts[0], sep, rest);
    } else {
      var j := Join(parts[1..], sep);
      assert Join(parts, sep) == parts[0] + sep + j;
      RegroupSeparator(parts[0], sep, j, rest);
      SplitSeparated(parts[0], sep, j + sep + rest);
      forall i | 0 <= i < |parts[1..]| ensures sep[0] !in parts[1..][i] {
        assert parts[1..][i] == parts[i + 1];
      }
      SplitJoinRest(parts[1..], sep, rest);
      assert [parts[0]] + parts[1..] == parts;
      AppendAssoc([parts[0]], parts[1..], Split(rest, sep));
    }
  }

  /** A character in neither part is not in the two together. */
  lemma {:induction false} NotInAppend(c: char, a: string, b: string)
    requires c !in a && c !in b
    ensures c !in a + b
  {
  }

  lemma {:induction false} AppendAssoc<T>(a: seq<T>, b: seq<T>, c: seq<T>)
    ensures a + (b + c) == a + b + c
  {
  }

  /** Regrouping `a + sep + j + sep + rest` around its first separator. */
  lemma {:induction false} RegroupSeparator(a: string, sep: string, j: string, rest: string)
    ensures a + sep + j + sep + rest == a + sep + (j + sep + rest)
  {
  }

  /** Joining one more piece appends the separator and the piece. */
  lemma {:induction false} JoinSnoc(parts: seq<string>, x: string, sep: string)
    requires |parts| > 0
    ensures Join(parts + [x], sep) == Join(parts, sep) + sep + x
    decreases |parts|
  {
    if |parts| == 1 {
      assert (parts + [x])[1..] == [x];
    } else {
      assert (parts + [x])[1..] == parts[1..] + [x];
      JoinSnoc(parts[1..], x, sep);
    }
  }

  /** The text after the first separator: what `s.split(sep).slice(1).join(sep)` gives
      when the leading word holds no separator character. */
  lemma {:induction false} SplitTailJoin(word: string, sep: string, tail: string)
    requires |sep| > 0 && sep[0] !in word
    ensures Join(Split(word + sep + tail, sep)[1..], sep) == tail
  {
    SplitSeparated(word, sep, tail);
    assert Split(word + sep + tail, sep)[1..] == Split(tail, sep);
    JoinSplit(tail, sep);
  }

  /** `parts.filter(p => p != '')` (also `p && p.length`): the non-empty pieces, in order. */
  function RemoveEmpty(parts: seq<string>): (r: seq<string>)
    ensures "" !in r
    ensures forall x :: x != "" ==> multiset(r)[x] == multiset(parts)[x]
    decreases |parts|
  {
    if parts == [] then []
    else
      assert parts == [parts[0]] + parts[1..];
      (if parts[0] == "" then [] else [parts[0]]) + RemoveEmpty(parts[1..])
  }

  /** Filtering distributes over concatenation, so it keeps the order of the pieces. */
  lemma {:induction false} RemoveEmptyAppend(a: seq<string>, b: seq<string>)
    ensures RemoveEmpty(a + b) == RemoveEmpty(a) + RemoveEmpty(b)
    decreases |a|
  {
    if a != [] {
      assert (a + b)[0] == a[0];
      assert (a + b)[1..] == a[1..] + b;
      RemoveEmptyAppend(a[1..], b);
    } else {
      assert a + b == b;
    }
  }

  /** Filtering keeps a sequence free of empty pieces as it is. */
  lemma {:induction false} RemoveEmptyKeeps(parts: seq<string>)
    requires "" !in parts
    ensures RemoveEmpty(parts) == parts
    decreases |parts|
  {
    if parts != [] {
      assert parts[0] in parts;
      assert forall x :: x in parts[1..] ==> x in parts;
      RemoveEmptyKeeps(parts[1..]);
    }
  }

  /** `s.trimStart()` */
  function TrimStart(s: string): string
    decreases |s|
  {
    if |s| > 0 && IsSpace(s[0]) then TrimStart(s[1..]) else s
  }

  /** `s.trimEnd()` */
  function TrimEnd(s: string): string
    decreases |s|
  {
    if |s| > 0 && IsSpace(s[|s| - 1]) then TrimEnd(s[..|s| - 1]) else s
  }

  /** `s.trim()` */
  function Trim(s: string): string {
    TrimEnd(TrimStart(s))
  }

  /** `trimStart` removes a whitespace prefix and stops at the first other character. */
  lemma {:induction false} TrimStartShape(s: string)
    ensures |TrimStart(s)| <= |s| && TrimStart(s) == s[|s| - |TrimStart(s)|..]
    ensures AllSpace(s[..|s| - |TrimStart(s)|])
    ensures TrimStart(s) != [] ==> !IsSpace(TrimStart(s)[0])
    decreases |s|
  {
    if |s| > 0 && IsSpace(s[0]) {
      TrimStartShape(s[1..]);
      var r := TrimStart(s[1..]);
      assert s[..|s| - |r|] == [s[0]] + s[1..][..|s[1..]| - |r|];
    }
  }

  /** `trimEnd` removes a whitespace suffix and stops at the last other character. */
  lemma {:induction false} TrimEndShape(s: string)
    ensures |TrimEnd(s)| <= |s| && TrimEnd(s) == s[..|TrimEnd(s)|]
    ensures AllSpace(s[|TrimEnd(s)|..])
    ensures TrimEnd(s) != [] ==> !IsSpace(TrimEnd(s)[|TrimEnd(s)| - 1])
    decreases |s|
  {
    if |s| > 0 && IsSpace(s[|s| - 1]) {
      var p := s[..|s| - 1];
      TrimEndShape(p);
      var r := TrimEnd(p);
      assert TrimEnd(s) == r;
      assert s[..|r|] == p[..|r|];
      assert s[|r|..] == p[|r|..] + [s[|s| - 1]];
    }
  }

  /** The result of `trim` is empty exactly for all-whitespace text, and otherwise
      begins and ends with a character that is not whitespace; what it removed is whitespace. */
  lemma {:induction false} TrimShape(s: string)
    ensures (Trim(s) == []) == AllSpace(s)
    ensures Trim(s) != [] ==> !IsSpace(Trim(s)[0]) && !IsSpace(Trim(s)[|Trim(s)| - 1])
  {
    var t := TrimStart(s);
    TrimStartShape(s);
    TrimEndShape(t);
    assert s == s[..|s| - |t|] + t;
    if AllSpace(s) {
      assert AllSpace(t);
      assert t[..|Trim(s)|] + t[|Trim(s)|..] == t;
    }
    if Trim(s) != [] {
      assert Trim(s)[0] == t[0];
    }
  }

  lemma {:induction false} TrimStartPad(pad: string, x: string)
    requires AllSpace(pad)
    ensures TrimStart(pad + x) == TrimStart(x)
    decreases |pad|
  {
    if pad != [] {
      assert (pad + x)[1..] == pad[1..] + x;
      TrimStartPad(pad[1..], x);
    } else {
      assert pad + x == x;
    }
  }

  lemma {:induction false} TrimEndPad(x: string, pad: string)
    requires AllSpace(pad)
    ensures TrimEnd(x + pad) == TrimEnd(x)
    decreases |pad|
  {
    if pad != [] {
      var p := pad[..|pad| - 1];
      assert (x + pad)[..|x + pad| - 1] == x + p;
      TrimEndPad(x, p);
    } else {
      assert x + pad == x;
    }
  }

  /** Trimming removes exactly the whitespace around a core that has none at its ends. */
  lemma {:induction false} TrimPad(pad1: string, x: string, pad2: string)
    requires AllSpace(pad1) && AllSpace(pad2)
    requires x != [] ==> !IsSpace(x[0]) && !IsSpace(x[|x| - 1])
    ensures Trim(pad1 + x + pad2) == x
  {
    assert pad1 + x + pad2 == pad1 + (x + pad2);
    TrimStartPad(pad1, x + pad2);
    if x == [] {
      assert x + pad2 == pad2 && pad2 + "" == pad2;
      TrimStartPad(pad2, "");
    } else {
      assert (x + pad2)[0] == x[0];
      TrimEndPad(x, pad2);
    }
  }

  lemma {:induction false} AllSpaceAppend(a: string, b: string)
    requires AllSpace(a) && AllSpace(b)
    ensures AllSpace(a + b)
  {
    forall i | 0 <= i < |a + b|
      ensures IsSpace((a + b)[i])
    {
      if i < |a| {
        assert (a + b)[i] == a[i];
      } else {
        assert (a + b)[i] == b[i - |a|];
      }
    }
  }

  /** Whitespace appended to a text does not change what `trim` gives. */
  lemma {:induction false} TrimAppendSpace(x: string, pad: string)
    requires AllSpace(pad)
    ensures Trim(x + pad) == Trim(x)
  {
    var p1, y, p2 := TrimParts(x);
    AllSpaceAppend(p2, pad);
    assert x + pad == p1 + y + (p2 + pad);
    if y == [] {
      AllSpacePad(p1, p2 + pad);
    } else {
      TrimPad(p1, y, p2 + pad);
    }
  }

  /** All-whitespace text trims to nothing. */
  lemma {:induction false} AllSpacePad(p1: string, p2: string)
    requires AllSpace(p1) && AllSpace(p2)
    ensures Trim(p1 + [] + p2) == []
  {
    assert p1 + [] + p2 == p1 + p2;
    AllSpaceAppend(p1, p2);
    TrimShape(p1 + p2);
  }

  /** A text is its trim between two runs of whitespace. */
  lemma {:induction false} TrimParts(x: string) returns (p1: string, y: string, p2: string)
    ensures x == p1 + y + p2 && y == Trim(x) && AllSpace(p1) && AllSpace(p2)
    ensures y != [] ==> !IsSpace(y[0]) && !IsSpace(y[|y| - 1])
  {
    var t := TrimStart(x);
    TrimStartShape(x);
    p1 := x[..|x| - |t|];
    assert x == p1 + t;
    y := TrimEnd(t);
    TrimEndShape(t);
    p2 := t[|y|..];
    assert t == y + p2;
    TrimShape(x);
  }

  /** Trimming twice is trimming once. */
  lemma {:induction false} TrimIdempotent(s: string)
    ensures Trim(Trim(s)) == Trim(s)
  {
    TrimShape(s);
    TrimPad("", Trim(s), "");
    assert "" + Trim(s) + "" == Trim(s);
  }

  /** The leading run of decimal digits, what a greedy `(\d+)` captures (empty when there is none). */
  function DigitPrefix(s: string): (d: string)
    ensures AllDigits(d) && StartsWith(s, d)
    ensures |d| < |s| ==> !IsDigit(s[|d|])
    decreases |s|
  {
    if |s| > 0 && IsDigit(s[0]) then [s[0]] + DigitPrefix(s[1..]) else ""
  }

  /** A run of digits followed by a non-digit is the whole greedy capture. */
  lemma {:induction false} DigitPrefixOf(d: string, rest: string)
    requires AllDigits(d)
    requires rest != [] ==> !IsDigit(rest[0])
    ensures DigitPrefix(d + rest) == d
    decreases |d|
  {
    if d != [] {
      assert (d + rest)[0] == d[0];
      assert (d + rest)[1..] == d[1..] + rest;
      DigitPrefixOf(d[1..], rest);
    } else {
      assert d + rest == rest;
    }
  }

  function DigitValue(c: char): nat
    requires IsDigit(c)
  {
    (c as int - '0' as int) as nat
  }

  function DigitChar(n: nat): char
    requires n < 10
  {
    (('0' as int) + n) as char
  }

  /** The number a string of decimal digits denotes (leading zeros allowed). */
  function DecimalValue(s: string): nat
    requires AllDigits(s)
    decreases |s|
  {
    if s == [] then 0 else DecimalValue(s[..|s| - 1]) * 10 + DigitValue(s[|s| - 1])
  }

  /** The decimal rendering of a number, without leading zeros. */
  function ShowNat(n: nat): (s: string)
    decreases n
  {
    if n < 10 then [DigitChar(n)] else ShowNat(n / 10) + [DigitChar(n % 10)]
  }

  /** Reading back a rendered number gives the number. */
  lemma {:induction false} DecimalRoundTrip(n: nat)
    ensures |ShowNat(n)| > 0 && AllDigits(ShowNat(n))
    ensures DecimalValue(ShowNat(n)) == n
    decreases n
  {
    if n >= 10 {
      DecimalRoundTrip(n / 10);
      var s := ShowNat(n);
      assert s[..|s| - 1] == ShowNat(n / 10);
    }
  }

  /** `s.indexOf(c, from)`: the first position at or after `from` that holds `c`. */
  function IndexOfFrom(s: string, c: char, from: nat): (r: Option<nat>)
    ensures r.Some? ==> from <= r.value < |s| && s[r.value] == c
    ensures r.Some? ==> forall j :: from <= j < r.value ==> s[j] != c
    ensures r.None? ==> forall j :: from <= j < |s| ==> s[j] != c
    decreases |s| - from
  {
    if from >= |s| then None else if s[from] == c then Some(from) else IndexOfFrom(s, c, from + 1)
  }

  /** `indexOf` from `from` finds `k` when `k` holds the character and no place before it does. */
  lemma {:induction false} IndexOfAt(s: string, c: char, from: nat, k: nat)
    requires from <= k < |s| && s[k] == c
    requires forall j :: from <= j < k ==> s[j] != c
    ensures IndexOfFrom(s, c, from) == Some(k)
  {
  }

  /** Where `a`, then `x`, then `b`, then `y` stand at `q`, each piece is at its place. */
  lemma {:induction false} PiecesAt(s: string, q: nat, a: string, x: char, b: string, y: char)
    requires q + |a| + |b| + 2 <= |s| && s[q..q + |a| + |b| + 2] == a + [x] + b + [y]
    ensures s[q + |a|] == x && s[q + |a| + 1 + |b|] == y
    ensures s[q..q + |a|] == a && s[q + |a| + 1..q + |a| + 1 + |b|] == b
    ensures forall j :: q <= j < q + |a| ==> s[j] == a[j - q]
    ensures forall j :: q + |a| + 1 <= j < q + |a| + 1 + |b| ==> s[j] == b[j - q - |a| - 1]
  {
    var t := a + [x] + b + [y];
    assert forall j :: q <= j < q + |t| ==> s[j] == t[j - q] by {
      forall j | q <= j < q + |t| ensures s[j] == t[j - q] {
        assert s[q..q + |t|][j - q] == s[j];
      }
    }
  }

}
