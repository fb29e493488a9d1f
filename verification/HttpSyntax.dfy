/** The text of a message head: lines ended by CR LF, and one empty line at the end. */
module HttpSyntax {
  import opened Sequences
  import opened Wrappers

  const CRLF: string := "\r\n"

  // ---------- Searching ----------

  predicate CrlfAt(s: string, i: int) {
    0 <= i && i + 2 <= |s| && s[i] == '\r' && s[i + 1] == '\n'
  }

  /** The end of a line and an empty line after it. */
  predicate BlankAt(s: string, i: int) {
    CrlfAt(s, i) && CrlfAt(s, i + 2)
  }

  function FindCrlf(s: string, start: nat): (r: Option<nat>)
    ensures r.Some? ==> start <= r.value && CrlfAt(s, r.value)
    ensures r.Some? ==> forall k :: start <= k < r.value ==> !CrlfAt(s, k)
    ensures r.None? ==> forall k :: start <= k ==> !CrlfAt(s, k)
    decreases |s| - start
  {
    if start + 2 > |s| then None
    else if CrlfAt(s, start) then Some(start)
    else FindCrlf(s, start + 1)
  }

  function FindBlank(s: string, start: nat): (r: Option<nat>)
    ensures r.Some? ==> start <= r.value && BlankAt(s, r.value)
    ensures r.Some? ==> forall k :: start <= k < r.value ==> !BlankAt(s, k)
    ensures r.None? ==> forall k :: start <= k ==> !BlankAt(s, k)
    decreases |s| - start
  {
    if start + 4 > |s| then None
    else if BlankAt(s, start) then Some(start)
    else FindBlank(s, start + 1)
  }

  function FindChar(s: string, c: char, start: nat): (r: Option<nat>)
    ensures r.Some? ==> start <= r.value < |s| && s[r.value] == c
    ensures r.Some? ==> forall k :: start <= k < r.value ==> s[k] != c
    ensures r.None? ==> forall k :: start <= k < |s| ==> s[k] != c
    decreases |s| - start
  {
    if start >= |s| then None
    else if s[start] == c then Some(start)
    else FindChar(s, c, start + 1)
  }

  // ---------- Lines ----------

  /** A line has no line end inside. */
  ghost predicate IsLine(s: string) {
    forall i :: !CrlfAt(s, i)
  }

  ghost predicate AreLines(lines: seq<string>) {
    forall i :: 0 <= i < |lines| ==> lines[i] != "" && IsLine(lines[i])
  }

  function Text(lines: seq<string>): string {
    if lines == [] then "" else lines[0] + CRLF + Text(lines[1..])
  }

  /** A message head with this start line and these header lines. */
  function Head(startLine: string, lines: seq<string>): string {
    startLine + CRLF + (Text(lines) + CRLF)
  }

  lemma {:induction false} TextAppend(a: seq<string>, b: seq<string>)
    ensures Text(a + b) == Text(a) + Text(b)
  {
    if a == [] {
      assert a + b == b;
    } else {
      TextAppend(a[1..], b);
      FirstOfAppended(a, b);
      Regroup(a[0] + CRLF, Text(a[1..]), Text(b));
    }
  }

  /** The lines in front of the first empty one. */
  function LinesOf(s: string): (lines: seq<string>)
    ensures AreLines(lines)
    decreases |s|
  {
    match FindCrlf(s, 0)
    case None => []
    case Some(e) =>
      if e == 0 then [] else
        LineIsLine(s, e);
        [s[..e]] + LinesOf(s[e + 2..])
  }

  lemma LineIsLine(s: string, e: nat)
    requires FindCrlf(s, 0) == Some(e)
    ensures IsLine(s[..e])
  {
    forall i ensures !CrlfAt(s[..e], i) {
      if 0 <= i && i + 2 <= e {
        assert !CrlfAt(s, i);
      }
    }
  }

  /** In front of a line end there are only positions inside the line, where none is. */
  lemma FirstLineEnd(line: string, rest: string)
    requires IsLine(line)
    ensures forall k :: k < |line| ==> !CrlfAt(line + CRLF + rest, k)
    ensures FindCrlf(line + CRLF + rest, 0) == Some(|line|)
  {
    var s := line + CRLF + rest;
    forall k | k < |line| ensures !CrlfAt(s, k) {
      if 0 <= k && k + 1 < |line| {
        assert !CrlfAt(line, k);
      }
    }
    assert CrlfAt(s, |line|);
  }

  lemma {:induction false} LinesOfText(lines: seq<string>, tail: string)
    requires AreLines(lines)
    ensures LinesOf(Text(lines) + CRLF + tail) == lines
  {
    if lines == [] {
      FirstLineEnd("", tail);
      assert Text(lines) + CRLF + tail == "" + CRLF + tail;
    } else {
      var rest := Text(lines[1..]) + CRLF + tail;
      FirstLineEnd(lines[0], rest);
      LinesOfText(lines[1..], tail);
      assert Text(lines) + CRLF + tail == lines[0] + CRLF + rest;
      assert (lines[0] + CRLF + rest)[..|lines[0]|] == lines[0];
      assert (lines[0] + CRLF + rest)[|lines[0]| + 2..] == rest;
    }
  }

  /** An empty line is not found inside a line; it is where the next line is empty, or later. */
  lemma BlankAfterLine(line: string, rest: string)
    requires IsLine(line)
    ensures forall k :: k < |line| ==> !BlankAt(line + CRLF + rest, k)
    ensures BlankAt(line + CRLF + rest, |line|) <==> CrlfAt(rest, 0)
    ensures !BlankAt(line + CRLF + rest, |line| + 1)
  {
    FirstLineEnd(line, rest);
    var s := line + CRLF + rest;
    assert CrlfAt(s, |line| + 2) <==> CrlfAt(rest, 0);
  }

  lemma BlankShift(line: string, rest: string, k: nat)
    ensures BlankAt(line + CRLF + rest, |line| + 2 + k) <==> BlankAt(rest, k)
  {
    var s := line + CRLF + rest;
    assert forall j :: 0 <= j < |rest| ==> s[|line| + 2 + j] == rest[j];
  }

  lemma FindBlankIs(s: string, i: nat)
    requires BlankAt(s, i) && forall k :: 0 <= k < i ==> !BlankAt(s, k)
    ensures FindBlank(s, 0) == Some(i)
  {
  }

  /** The first empty line of a head is the one at its end. */
  lemma {:induction false} BlankOfHead(startLine: string, lines: seq<string>, tail: string)
    requires IsLine(startLine) && AreLines(lines)
    ensures FindBlank(Head(startLine, lines) + tail, 0) == Some(|Head(startLine, lines)| - 4)
    decreases |lines|
  {
    var rest := Text(lines) + CRLF + tail;
    var s := startLine + CRLF + rest;
    assert Head(startLine, lines) + tail == s;
    BlankAfterLine(startLine, rest);
    if lines == [] {
      assert rest == CRLF + tail;
      FindBlankIs(s, |startLine|);
    } else {
      var next := Head(lines[0], lines[1..]);
      assert next == Text(lines) + CRLF;
      BlankOfHead(lines[0], lines[1..], tail);
      FirstLineEnd(lines[0], Text(lines[1..]) + CRLF + tail);
      assert rest == lines[0] + CRLF + (Text(lines[1..]) + CRLF + tail) == next + tail;
      BlankFurther(startLine, rest, |next| - 4);
    }
  }

  lemma BlankFurther(line: string, rest: string, i: nat)
    requires IsLine(line) && !CrlfAt(rest, 0) && FindBlank(rest, 0) == Some(i)
    ensures FindBlank(line + CRLF + rest, 0) == Some(|line| + 2 + i)
  {
    hide BlankAt, CrlfAt, IsLine, FindBlank;
    var s := line + CRLF + rest;
    BlankShift(line, rest, i);
    NoneBefore(line, rest, i, s);
    FindBlankIs(s, |line| + 2 + i);
  }

  lemma NoneBefore(line: string, rest: string, i: nat, s: string)
    requires IsLine(line) && !CrlfAt(rest, 0) && FindBlank(rest, 0) == Some(i) && s == line + CRLF + rest
    ensures forall k :: 0 <= k < |line| + 2 + i ==> !BlankAt(s, k)
  {
    forall k: int | 0 <= k < |line| + 2 + i ensures !BlankAt(s, k) {
      NoBlankBefore(line, rest, i, k);
    }
  }

  lemma NoBlankBefore(line: string, rest: string, i: nat, k: nat)
    requires IsLine(line) && !CrlfAt(rest, 0) && FindBlank(rest, 0) == Some(i) && k < |line| + 2 + i
    ensures !BlankAt(line + CRLF + rest, k)
  {
    if k < |line| + 2 {
      BlankAfterLine(line, rest);
    } else {
      BlankShift(line, rest, k - |line| - 2);
    }
  }

  /** A block that ends at its first empty line is the head made of its lines. */
  lemma {:induction false} BlockIsHead(block: string, e: nat)
    requires |block| >= 4 && FindBlank(block, 0) == Some(|block| - 4) && FindCrlf(block, 0) == Some(e)
    ensures IsLine(block[..e]) && block == Head(block[..e], LinesOf(block[e + 2..]))
    decreases |block|
  {
    hide LinesOf, FindBlank, FindCrlf, Head, IsLine;
    LineIsLine(block, e);
    var line, rest := block[..e], block[e + 2..];
    SplitAtLineEnd(block, e);
    if CrlfAt(rest, 0) {
      EmptyRest(line, rest);
      HeadWithoutLines(line);
    } else {
      RestOfBlock(line, rest);
      var f := FindCrlf(rest, 0).value;
      BlockIsHead(rest, f);
      HeadWithRest(line, rest, f);
    }
  }

  lemma SplitAtLineEnd(s: string, e: nat)
    requires CrlfAt(s, e)
    ensures s == s[..e] + CRLF + s[e + 2..]
  {
  }

  lemma HeadWithoutLines(line: string)
    ensures line + CRLF + CRLF == Head(line, LinesOf(CRLF))
  {
    assert FindCrlf(CRLF, 0) == Some(0);
    assert Text([]) + CRLF == CRLF;
  }

  lemma HeadWithRest(line: string, rest: string, f: nat)
    requires FindCrlf(rest, 0) == Some(f) && f > 0 && rest == Head(rest[..f], LinesOf(rest[f + 2..]))
    ensures line + CRLF + rest == Head(line, LinesOf(rest))
  {
    hide FindCrlf, IsLine;
    var first, lines := rest[..f], LinesOf(rest[f + 2..]);
    assert LinesOf(rest) == [first] + lines;
    TextOfFirst(first, lines);
    Regroup(first + CRLF, Text(lines), CRLF);
  }

  lemma TextOfFirst(first: string, lines: seq<string>)
    ensures Text([first] + lines) == first + CRLF + Text(lines)
  {
    assert ([first] + lines)[1..] == lines;
  }

  lemma EmptyRest(line: string, rest: string)
    requires var block := line + CRLF + rest; |block| >= 4 && FindBlank(block, 0) == Some(|block| - 4)
    requires IsLine(line) && CrlfAt(rest, 0)
    ensures rest == CRLF
  {
    BlankAfterLine(line, rest);
  }

  lemma RestOfBlock(line: string, rest: string)
    requires var block := line + CRLF + rest; |block| >= 4 && FindBlank(block, 0) == Some(|block| - 4)
    requires IsLine(line) && !CrlfAt(rest, 0)
    ensures |rest| >= 4 && FindBlank(rest, 0) == Some(|rest| - 4)
    ensures FindCrlf(rest, 0).Some? && FindCrlf(rest, 0).value > 0
  {
    var block := line + CRLF + rest;
    BlankAfterLine(line, rest);
    assert |block| - 4 >= |line| + 2;
    forall k: nat | k < |rest| - 4 ensures !BlankAt(rest, k) {
      BlankShift(line, rest, k);
    }
    BlankShift(line, rest, |rest| - 4);
    FindBlankIs(rest, |rest| - 4);
  }
}
