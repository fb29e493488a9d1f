/** What an accepted message head says, in terms of its bytes: which heads are accepted, with which
fields, and which error the others get. */
module HeadMeaning {
  import opened HttpFields
  import opened HttpForwarding
  import opened HttpFramer
  import opened HttpSyntax
  import opened Wrappers

  // ---------- Characters and numbers ----------

  const UPPER: string := "ABCDEFGHIJKLMNOPQRSTUVWXYZ"
  const LOWER: string := "abcdefghijklmnopqrstuvwxyz"

  lemma UpperLetters(c: char)
    ensures c in UPPER <==> 'A' <= c <= 'Z'
  {
    assert forall k :: 0 <= k < 26 ==> UPPER[k] as int == 'A' as int + k;
    if 'A' <= c <= 'Z' {
      assert UPPER[c as int - 'A' as int] == c;
    }
  }

  lemma LowerLetters(c: char)
    ensures c in LOWER <==> 'a' <= c <= 'z'
  {
    assert forall k :: 0 <= k < 26 ==> LOWER[k] as int == 'a' as int + k;
    if 'a' <= c <= 'z' {
      assert LOWER[c as int - 'a' as int] == c;
    }
  }

  lemma Digits(c: char)
    ensures c in "0123456789" <==> IsDigit(c)
  {
    if IsDigit(c) {
      assert "0123456789"[c as int - '0' as int] == c;
    }
  }

  /** The characters of a field name: letters, digits and the fifteen marks of RFC 9110, section 5.6.2. */
  lemma TokenCharacters(c: char)
    ensures IsTokenCharacter(c) <==> c in UPPER || c in LOWER || c in "0123456789" || c in "!#$%&'*+-.^_`|~"
  {
    UpperLetters(c);
    LowerLetters(c);
    Digits(c);
  }

  /** Lower case changes the letters of the alphabet one by one, and nothing else. */
  lemma LowerCase(s: string, i: nat)
    requires i < |s|
    ensures forall k :: 0 <= k < 26 && s[i] == UPPER[k] ==> Lower(s)[i] == LOWER[k]
    ensures s[i] !in UPPER ==> Lower(s)[i] == s[i]
  {
    UpperLetters(s[i]);
    assert forall k :: 0 <= k < 26 ==> UPPER[k] as int + 32 == LOWER[k] as int;
  }

  /** Each digit counts ten times what it counts one place further back. */
  lemma DecimalPlaces(s: string, c: char)
    requires AllDigits(s) && IsDigit(c)
    ensures AllDigits(s + [c]) && Decimal(s + [c]) == 10 * Decimal(s) + Digit(c)
    ensures "0123456789"[Digit(c)] == c
  {
    assert (s + [c])[..|s|] == s;
  }

  /** The number that a trimmed value stands for. */
  function NumberOf(value: string): Option<nat> {
    if value != "" && AllDigits(value) && Decimal(value) <= 0xFFFF_FFFF_FFFF_FFFF then Some(Decimal(value)) else None
  }

  // ---------- Header lines ----------

  /** A line with this name, in lower case, and this value. */
  ghost predicate IsField(line: string, name: string, value: string, raw: string, front: string, back: string) {
    && line == raw + ":" + (front + value + back)
    && ValidHeaderName(raw) && Lower(raw) == name
    && TrimmedTo(front + value + back, value, front, back) && ValidHeaderValue(value)
  }

  /** A line is read as a name and a value exactly when it consists of a name, a colon and the value with
  white space around it. */
  lemma ReadExactly(line: string, name: string, value: string)
    ensures ReadLine(line) == Success(HeaderLine(name, value, line)) <==>
      exists raw, front, back :: IsField(line, name, value, raw, front, back)
  {
    if ReadLine(line) == Success(HeaderLine(name, value, line)) {
      var colon := FindChar(line, ':', 0).value;
      TrimExactly(line[colon + 1..], value);
      var front, back :| TrimmedTo(line[colon + 1..], value, front, back);
      assert line == line[..colon] + ":" + line[colon + 1..];
      assert IsField(line, name, value, line[..colon], front, back);
    }
    if raw, front, back :| IsField(line, name, value, raw, front, back) {
      FieldReads(line, name, value, raw, front, back);
    }
  }

  lemma FieldReads(line: string, name: string, value: string, raw: string, front: string, back: string)
    requires IsField(line, name, value, raw, front, back)
    ensures ReadLine(line) == Success(HeaderLine(name, value, line))
  {
    hide Trim, Lower, ValidHeaderValue, ValidHeaderName, IsOws;
    var rest := front + value + back;
    NameBegins(raw);
    NameEnds(raw, rest);
    NameAndValue(raw, rest);
    TrimExactly(rest, value);
  }

  /** A line that is a field says either this name and value or another. */
  lemma ReadKeepsLine(line: string)
    ensures ReadLine(line).Success? ==> ReadLine(line).value.original == line
    ensures ReadLine(line).Failure? ==> ReadLine(line).error == BadSyntax
    ensures ReadLine(line).Success? ==> Trim(ReadLine(line).value.value) == ReadLine(line).value.value
  {
    if ReadLine(line).Success? {
      var colon := FindChar(line, ':', 0).value;
      LengthOfTrimmed(line[colon + 1..]);
    }
  }

  predicate Named(line: string, name: string) {
    ReadLine(line).Success? && ReadLine(line).value.lowerName == name
  }

  function ValueOf(line: string): string {
    match ReadLine(line) case Success(header) => header.value case Failure(_) => ""
  }

  predicate AboutConnection(line: string) {
    Named(line, "connection") || Named(line, "proxy-connection")
  }

  /** A piece of the value between commas, or between a comma and an end. */
  ghost predicate IsPiece(value: string, i: nat, j: nat) {
    && i <= j <= |value| && (i == 0 || value[i - 1] == ',') && (j == |value| || value[j] == ',')
    && forall k :: i <= k < j ==> value[k] != ','
  }

  ghost predicate HasOption(value: string, o: string) {
    exists i: nat, j: nat :: IsPiece(value, i, j) && Lower(Trim(value[i..j])) == o
  }

  lemma OnlyPiece(value: string, o: string)
    requires ',' !in value
    ensures HasOption(value, o) <==> Lower(Trim(value)) == o
  {
    hide Lower, Trim;
    assert IsPiece(value, 0, |value|) && value[0..|value|] == value;
    if i: nat, j: nat :| IsPiece(value, i, j) && Lower(Trim(value[i..j])) == o {
      assert i == 0 && j == |value|;
    }
  }

  lemma FirstPiece(value: string, comma: nat, o: string)
    requires FindChar(value, ',', 0) == Some(comma) && Lower(Trim(value[..comma])) == o
    ensures HasOption(value, o)
  {
    hide Lower, Trim;
    assert IsPiece(value, 0, comma) && value[0..comma] == value[..comma];
  }

  lemma SamePiece(value: string, d: nat, i: nat, j: nat)
    requires i <= j && d + j <= |value|
    ensures value[d..][i..j] == value[d + i..d + j]
  {
  }

  lemma ShiftPiece(value: string, d: nat, i: nat, j: nat)
    requires 0 < d <= |value| && value[d - 1] == ',' && IsPiece(value[d..], i, j)
    ensures IsPiece(value, d + i, d + j)
  {
    assert forall k :: d <= k < |value| ==> value[k] == value[d..][k - d];
  }

  lemma PieceBehind(value: string, comma: nat, o: string)
    requires FindChar(value, ',', 0) == Some(comma) && HasOption(value[comma + 1..], o)
    ensures HasOption(value, o)
  {
    hide Lower, Trim, FindChar;
    var rest := value[comma + 1..];
    var i: nat, j: nat :| IsPiece(rest, i, j) && Lower(Trim(rest[i..j])) == o;
    ShiftPiece(value, comma + 1, i, j);
    SamePiece(value, comma + 1, i, j);
  }

  lemma FirstOrBehind(value: string, comma: nat, o: string)
    requires FindChar(value, ',', 0) == Some(comma) && HasOption(value, o)
    ensures Lower(Trim(value[..comma])) == o || HasOption(value[comma + 1..], o)
  {
    hide Lower, Trim;
    var i: nat, j: nat :| IsPiece(value, i, j) && Lower(Trim(value[i..j])) == o;
    if i == 0 {
      assert j == comma && value[i..j] == value[..comma];
    } else {
      var rest, a, b := value[comma + 1..], i - comma - 1, j - comma - 1;
      assert IsPiece(rest, a, b) && rest[a..b] == value[i..j];
    }
  }

  /** The options of a value are its pieces, trimmed and in lower case. */
  lemma {:induction false} OptionsArePieces(value: string, o: string)
    ensures o in Options(value) <==> HasOption(value, o)
    decreases |value|
  {
    hide Lower, Trim, HasOption;
    match FindChar(value, ',', 0)
    case None => OnlyPiece(value, o);
    case Some(comma) =>
      OptionsArePieces(value[comma + 1..], o);
      if Lower(Trim(value[..comma])) == o {
        FirstPiece(value, comma, o);
      }
      if HasOption(value[comma + 1..], o) {
        PieceBehind(value, comma, o);
      }
      if HasOption(value, o) {
        FirstOrBehind(value, comma, o);
      }
  }

  // ---------- Lists of header lines ----------

  /** What is wrong with a line behind the lines in front of it, if anything. */
  ghost function WrongLine(before: seq<string>, line: string, limits: HttpLimits): Option<HttpParseError> {
    if ReadLine(line).Failure? then Some(BadSyntax)
    else if Named(line, "transfer-encoding") || Named(line, "upgrade") then Some(UnsupportedFraming)
    else if Named(line, "content-length") then
      if NumberOf(ValueOf(line)).None? then Some(BadSyntax)
      else if exists b :: b in before && Named(b, "content-length") && NumberOf(ValueOf(b)) != NumberOf(ValueOf(line))
      then Some(BadSyntax)
      else if NumberOf(ValueOf(line)).value > limits.maxBodyBytes then Some(BodyTooLarge)
      else None
    else if AboutConnection(line) && exists o :: HasOption(ValueOf(line), o) && o != "close" && o != "keep-alive"
    then Some(UnsupportedFraming)
    else None
  }

  /** The lengths that the lines announce, and whether one of them announces the close. */
  ghost predicate Announces(lines: seq<string>, length: nat) {
    exists line :: line in lines && Named(line, "content-length") && NumberOf(ValueOf(line)) == Some(length)
  }

  ghost predicate AnnouncesClose(lines: seq<string>) {
    exists line :: line in lines && AboutConnection(line) && HasOption(ValueOf(line), "close")
  }

  /** What the parser knows of the lines it has read. */
  ghost predicate Knows(h: ParsedHeaders, lines: seq<string>) {
    && (forall line :: line in lines && Named(line, "content-length") ==>
          h.contentLength.Some? && NumberOf(ValueOf(line)) == h.contentLength)
    && (h.contentLength.Some? ==> Announces(lines, h.contentLength.value))
    && (h.keepAlive <==> !AnnouncesClose(lines))
  }

  lemma KnowsNothing()
    ensures Knows(NO_HEADERS, [])
  {
  }

  lemma NumberOfLine(line: string)
    ensures ReadLine(line).Success? ==> Length(ReadLine(line).value.value) == NumberOf(ValueOf(line))
  {
    hide Trim, ReadLine;
    ReadKeepsLine(line);
  }

  lemma KnownExactlyWhen(value: string)
    ensures KnownOptions(Options(value)) <==> !exists o :: HasOption(value, o) && o != "close" && o != "keep-alive"
    ensures "close" in Options(value) <==> HasOption(value, "close")
  {
    hide Options, HasOption;
    OptionsArePieces(value, "close");
    if KnownOptions(Options(value)) {
      forall o | HasOption(value, o) ensures o == "close" || o == "keep-alive" {
        OptionsArePieces(value, o);
      }
    } else {
      var o :| o in Options(value) && o != "close" && o != "keep-alive";
      OptionsArePieces(value, o);
    }
  }

  /** One more line: its error, if it is wrong, or the lines with it. */
  lemma OneMoreLine(h: ParsedHeaders, before: seq<string>, line: string, limits: HttpLimits)
    requires Knows(h, before)
    ensures match WrongLine(before, line, limits)
            case Some(e) => ReadLine(line) == Failure(e)
              || (ReadLine(line).Success? && AddHeader(h, ReadLine(line).value, limits) == Failure(e))
            case None =>
              && ReadLine(line).Success? && AddHeader(h, ReadLine(line).value, limits).Success?
              && Knows(AddHeader(h, ReadLine(line).value, limits).value, before + [line])
  {
    hide ReadLine, HasOption, Options, NumberOf, Length;
    ReadKeepsLine(line);
    if ReadLine(line).Success? {
      NumberOfLine(line);
      KnownExactlyWhen(ValueOf(line));
      if Named(line, "content-length") {
        LengthLine(h, before, line, limits);
      } else if AboutConnection(line) {
        ConnectionLineRead(h, before, line, limits);
      } else {
        OtherLine(h, before, line);
      }
    }
  }

  lemma LengthLine(h: ParsedHeaders, before: seq<string>, line: string, limits: HttpLimits)
    requires Knows(h, before) && Named(line, "content-length")
    requires Length(ReadLine(line).value.value) == NumberOf(ValueOf(line))
    ensures match WrongLine(before, line, limits)
            case Some(e) => AddHeader(h, ReadLine(line).value, limits) == Failure(e)
            case None =>
              && AddHeader(h, ReadLine(line).value, limits).Success?
              && Knows(AddHeader(h, ReadLine(line).value, limits).value, before + [line])
  {
    hide ReadLine, HasOption, Options, NumberOf, Length;
    assert line in before + [line];
  }

  lemma ConnectionLineRead(h: ParsedHeaders, before: seq<string>, line: string, limits: HttpLimits)
    requires Knows(h, before) && AboutConnection(line)
    requires KnownOptions(Options(ValueOf(line))) <==>
      !exists o :: HasOption(ValueOf(line), o) && o != "close" && o != "keep-alive"
    requires "close" in Options(ValueOf(line)) <==> HasOption(ValueOf(line), "close")
    ensures match WrongLine(before, line, limits)
            case Some(e) => AddHeader(h, ReadLine(line).value, limits) == Failure(e)
            case None =>
              && AddHeader(h, ReadLine(line).value, limits).Success?
              && Knows(AddHeader(h, ReadLine(line).value, limits).value, before + [line])
  {
    hide ReadLine, HasOption, Options, NumberOf, Length, KnownOptions;
    assert line in before + [line];
  }

  lemma OtherLine(h: ParsedHeaders, before: seq<string>, line: string)
    requires Knows(h, before) && !Named(line, "content-length") && !AboutConnection(line)
    ensures forall lines: seq<HeaderLine> :: Knows(h.(lines := lines), before + [line])
  {
    hide ReadLine, HasOption, NumberOf;
  }

  ghost predicate NoneWrong(before: seq<string>, lines: seq<string>, limits: HttpLimits) {
    forall i :: 0 <= i < |lines| ==> WrongLine(before + lines[..i], lines[i], limits) == None
  }

  ghost predicate FirstWrong(before: seq<string>, lines: seq<string>, i: int, e: HttpParseError, limits: HttpLimits) {
    && 0 <= i < |lines| && WrongLine(before + lines[..i], lines[i], limits) == Some(e)
    && forall k :: 0 <= k < i ==> WrongLine(before + lines[..k], lines[k], limits) == None
  }

  ghost predicate ErrorIs(before: seq<string>, lines: seq<string>, e: HttpParseError, limits: HttpLimits) {
    exists i :: FirstWrong(before, lines, i, e, limits)
  }

  /** The list is read to its end exactly when no line is wrong, and otherwise gives the error of the first
  wrong one. */
  lemma {:induction false} ListRead(h: ParsedHeaders, before: seq<string>, lines: seq<string>, limits: HttpLimits)
    requires Knows(h, before)
    ensures var r := AddLines(h, lines, limits);
      if r.Success? then Knows(r.value, before + lines) && NoneWrong(before, lines, limits)
      else ErrorIs(before, lines, r.error, limits)
    decreases |lines|
  {
    hide WrongLine, Knows, ReadLine, AddHeader, NoneWrong, ErrorIs;
    if lines == [] {
      assert before + lines == before;
      NothingWrong(before, limits);
    } else {
      OneMoreLine(h, before, lines[0], limits);
      if WrongLine(before, lines[0], limits).Some? {
        WrongAtOnce(before, lines, limits);
      } else {
        ListRead(AddHeader(h, ReadLine(lines[0]).value, limits).value, before + [lines[0]], lines[1..], limits);
        OneFurther(before, lines, limits);
        if AddLines(h, lines, limits).Failure? {
          ErrorFurther(before, lines, AddLines(h, lines, limits).error, limits);
        }
      }
    }
  }

  lemma NothingWrong(before: seq<string>, limits: HttpLimits)
    ensures NoneWrong(before, [], limits)
  {
  }

  lemma WrongAtOnce(before: seq<string>, lines: seq<string>, limits: HttpLimits)
    requires lines != [] && WrongLine(before, lines[0], limits).Some?
    ensures ErrorIs(before, lines, WrongLine(before, lines[0], limits).value, limits)
  {
    hide WrongLine;
    assert before + lines[..0] == before;
    assert FirstWrong(before, lines, 0, WrongLine(before, lines[0], limits).value, limits);
  }

  /** Looking at the lines behind the first one is looking at all of them. */
  lemma OneFurther(before: seq<string>, lines: seq<string>, limits: HttpLimits)
    requires lines != [] && WrongLine(before, lines[0], limits) == None
    ensures var rest, longer := lines[1..], before + [lines[0]];
      && longer + rest == before + lines
      && (NoneWrong(longer, rest, limits) ==> NoneWrong(before, lines, limits))
  {
    hide WrongLine;
    var rest, longer := lines[1..], before + [lines[0]];
    assert before + lines[..0] == before;
    forall i | 0 < i < |lines|
      ensures WrongLine(before + lines[..i], lines[i], limits) == WrongLine(longer + rest[..i - 1], rest[i - 1], limits)
    {
      assert before + lines[..i] == longer + rest[..i - 1];
    }
  }

  lemma ErrorFurther(before: seq<string>, lines: seq<string>, e: HttpParseError, limits: HttpLimits)
    requires lines != [] && WrongLine(before, lines[0], limits) == None
    requires ErrorIs(before + [lines[0]], lines[1..], e, limits)
    ensures ErrorIs(before, lines, e, limits)
  {
    hide WrongLine;
    var rest, longer := lines[1..], before + [lines[0]];
    var i :| FirstWrong(longer, rest, i, e, limits);
    assert before + lines[..0] == before;
    forall k | 0 < k < |lines|
      ensures WrongLine(before + lines[..k], lines[k], limits) == WrongLine(longer + rest[..k - 1], rest[k - 1], limits)
    {
      assert before + lines[..k] == longer + rest[..k - 1];
    }
    assert FirstWrong(before, lines, i + 1, e, limits);
  }

  /** The headers of a head, from its first line to its last: they are accepted exactly when none is wrong,
  with the length that they announce, and keep the connection unless one of them announces the close. */
  lemma HeadersExactly(lines: seq<string>, limits: HttpLimits)
    ensures AddLines(NO_HEADERS, lines, limits).Success? <==> NoneWrong([], lines, limits)
    ensures var r := AddLines(NO_HEADERS, lines, limits);
      if r.Success? then HasLength(lines, r.value.contentLength) && (r.value.keepAlive <==> !AnnouncesClose(lines))
      else ErrorIs([], lines, r.error, limits)
  {
    hide ReadLine, HasOption, NumberOf, AddLines, WrongLine;
    KnowsNothing();
    ListRead(NO_HEADERS, [], lines, limits);
    assert [] + lines == lines;
  }

  /** The lines announce this length and no other, or none. */
  ghost predicate HasLength(lines: seq<string>, length: Option<nat>) {
    && (length.None? ==> forall line :: line in lines ==> !Named(line, "content-length"))
    && (length.Some? ==> Announces(lines, length.value))
    && (forall line :: line in lines && Named(line, "content-length") ==> NumberOf(ValueOf(line)) == length)
  }

  // ---------- Start lines ----------

  ghost predicate ThreeWords(line: string, a: string, b: string, c: string) {
    line == a + " " + b + " " + c && ' ' !in a && ' ' !in b && ' ' !in c
  }

  /** The spaces of a line, when there are exactly two. */
  ghost predicate TwoSpaces(line: string, first: nat, second: nat) {
    && first < second < |line| && line[first] == line[second] == ' '
    && forall k :: 0 <= k < |line| && line[k] == ' ' ==> k == first || k == second
  }

  lemma SpacesAreFound(line: string, first: nat, second: nat)
    requires TwoSpaces(line, first, second)
    ensures FindChar(line, ' ', 0) == Some(first) && FindChar(line, ' ', first + 1) == Some(second)
    ensures FindChar(line, ' ', second + 1) == None
  {
  }

  lemma FirstWord(line: string, word: string, rest: string)
    requires line == word + " " + rest && ' ' !in word
    ensures |line| == |word| + 1 + |rest| && line[..|word|] == word && line[|word| + 1..] == rest
    ensures line[|word|] == ' ' && forall k :: 0 <= k < |word| ==> line[k] != ' '
    ensures forall k :: |word| < k < |line| ==> line[k] == rest[k - |word| - 1]
  {
    assert forall k :: 0 <= k < |word| ==> line[k] == word[k];
  }

  lemma WordsAreFound(line: string, a: string, b: string, c: string)
    requires ThreeWords(line, a, b, c)
    ensures TwoSpaces(line, |a|, |a| + 1 + |b|)
    ensures line[..|a|] == a && line[|a| + 1..|a| + 1 + |b|] == b && line[|a| + |b| + 2..] == c
  {
    var rest := b + " " + c;
    assert line == a + " " + rest;
    FirstWord(line, a, rest);
    FirstWord(rest, b, c);
    assert line[|a| + 1..|a| + 1 + |b|] == rest[..|b|] && line[|a| + |b| + 2..] == rest[|b| + 1..];
  }

  lemma SpacesMakeWords(line: string, first: nat, second: nat)
    requires TwoSpaces(line, first, second)
    ensures ThreeWords(line, line[..first], line[first + 1..second], line[second + 1..])
  {
  }

  lemma FoundSpaces(line: string, first: nat, second: nat)
    requires FindChar(line, ' ', 0) == Some(first) && FindChar(line, ' ', first + 1) == Some(second)
    requires FindChar(line, ' ', second + 1) == None
    ensures TwoSpaces(line, first, second)
  {
    hide FindChar;
  }

  /** The reading of a line is decided by its three words, if it has them. */
  lemma WordsAreRead(line: string, a: string, b: string, c: string)
    requires ThreeWords(line, a, b, c)
    ensures ReadRequestLine(line) ==
      if a != "GET" && a != "POST" then Failure(UnsupportedMethod)
      else if b == "" || b[0] != '/' || c != "HTTP/1.1" then Failure(BadSyntax)
      else Success(RequestLine(a, b, c))
  {
    hide ThreeWords, TwoSpaces, FindChar;
    WordsAreFound(line, a, b, c);
    SpacesAreFound(line, |a|, |a| + 1 + |b|);
  }

  lemma NoWordsNoReading(line: string)
    ensures (exists a, b, c :: ThreeWords(line, a, b, c)) || ReadRequestLine(line) == Failure(BadSyntax)
  {
    hide ThreeWords, TwoSpaces, FindChar;
    var first := FindChar(line, ' ', 0);
    var second := if first.Some? then FindChar(line, ' ', first.value + 1) else None;
    if second.Some? && FindChar(line, ' ', second.value + 1).None? {
      FoundSpaces(line, first.value, second.value);
      SpacesMakeWords(line, first.value, second.value);
    }
  }

  ghost predicate IsRequestLine(line: string, r: RequestLine) {
    && ThreeWords(line, r.httpMethod, r.path, r.version)
    && (r.httpMethod == "GET" || r.httpMethod == "POST")
    && r.path != "" && r.path[0] == '/' && r.version == "HTTP/1.1"
  }

  /** A request line is accepted exactly when it consists of a known method, an absolute path and the version
  with one space between them; three words with another method have an error of their own. */
  lemma RequestLineExactly(line: string, r: RequestLine)
    ensures ReadRequestLine(line) == Success(r) <==> IsRequestLine(line, r)
    ensures ReadRequestLine(line) == Failure(UnsupportedMethod) <==>
      exists a, b, c :: ThreeWords(line, a, b, c) && a != "GET" && a != "POST"
    ensures ReadRequestLine(line).Failure? ==> ReadRequestLine(line).error in {UnsupportedMethod, BadSyntax}
  {
    hide ReadRequestLine, ThreeWords;
    NoWordsNoReading(line);
    if a, b, c :| ThreeWords(line, a, b, c) {
      WordsAreRead(line, a, b, c);
    }
    if IsRequestLine(line, r) {
      WordsAreRead(line, r.httpMethod, r.path, r.version);
    }
    if a, b, c :| ThreeWords(line, a, b, c) && a != "GET" && a != "POST" {
      WordsAreRead(line, a, b, c);
    }
  }

  ghost predicate IsStatusLine(line: string, statusCode: nat, token: string, reason: string) {
    && (line == "HTTP/1.1" + " " + token + " " + reason || (line == "HTTP/1.1" + " " + token && reason == ""))
    && |token| == 3 && AllDigits(token) && Decimal(token) == statusCode && 100 <= statusCode <= 599
  }

  /** A status line is accepted exactly when the version comes first and a number of three digits from 100 to
  599 second; the rest may be anything. */
  lemma StatusLineExactly(line: string, statusCode: nat)
    ensures ReadStatusLine(line) == Success(statusCode) <==>
      exists token, reason :: IsStatusLine(line, statusCode, token, reason)
    ensures ReadStatusLine(line).Failure? ==> ReadStatusLine(line).error == BadSyntax
  {
    if ReadStatusLine(line) == Success(statusCode) {
      var token, reason := StatusParts(line, statusCode);
    }
    if token, reason :| IsStatusLine(line, statusCode, token, reason) {
      StatusReads(line, statusCode, token, reason);
    }
  }

  lemma StatusParts(line: string, statusCode: nat) returns (token: string, reason: string)
    requires ReadStatusLine(line) == Success(statusCode)
    ensures IsStatusLine(line, statusCode, token, reason)
  {
    hide Decimal, AllDigits;
    var first := FindChar(line, ' ', 0).value;
    match FindChar(line, ' ', first + 1)
    case None =>
      token, reason := line[first + 1..|line|], "";
      assert line == line[..first] + " " + token;
    case Some(second) =>
      token, reason := line[first + 1..second], line[second + 1..];
      assert line == line[..first] + " " + token + " " + reason;
  }

  lemma StatusReads(line: string, statusCode: nat, token: string, reason: string)
    requires IsStatusLine(line, statusCode, token, reason)
    ensures ReadStatusLine(line) == Success(statusCode)
  {
    hide Decimal, AllDigits, FindChar;
    StatusShape(line, statusCode, token, reason);
    FirstSpace(line, 0, 8);
    if |line| > 12 {
      FirstSpace(line, 9, 12);
    } else {
      NoSpace(line, 9);
    }
  }

  lemma StatusShape(line: string, statusCode: nat, token: string, reason: string)
    requires IsStatusLine(line, statusCode, token, reason)
    ensures |line| >= 12 && line[..8] == "HTTP/1.1" && line[8] == ' ' && line[9..12] == token
    ensures forall k :: 0 <= k < 12 && k != 8 ==> line[k] != ' '
    ensures |line| > 12 ==> line[12] == ' '
  {
    hide Decimal;
    var front := "HTTP/1.1" + " " + token;
    assert line == front || line == front + (" " + reason);
    assert line[..12] == front;
    assert forall k :: 0 <= k < 3 ==> line[9 + k] == front[9 + k] == token[k];
    assert forall k :: 0 <= k < 9 ==> line[k] == front[k] == "HTTP/1.1 "[k];
  }

  lemma NoSpace(line: string, start: nat)
    requires forall k :: start <= k < |line| ==> line[k] != ' '
    ensures FindChar(line, ' ', start) == None
  {
  }

  lemma FirstSpace(line: string, start: nat, at: nat)
    requires start <= at < |line| && line[at] == ' ' && forall k :: start <= k < at ==> line[k] != ' '
    ensures FindChar(line, ' ', start) == Some(at)
  {
  }

  // ---------- Whole heads ----------

  /** A head with this start line and these lines is at the front of the bytes, within the limit. */
  ghost predicate HasHead(bytes: string, startLine: string, lines: seq<string>, headerBytes: nat, limits: HttpLimits) {
    && IsLine(startLine) && AreLines(lines) && Head(startLine, lines) <= bytes
    && headerBytes == |Head(startLine, lines)| <= limits.maxHeaderBytes
  }

  lemma FoundExactly(bytes: string, startLine: string, lines: seq<string>, headerBytes: nat, limits: HttpLimits)
    ensures FindBlock(bytes, limits) == Found(startLine, lines, headerBytes) <==>
      HasHead(bytes, startLine, lines, headerBytes, limits)
  {
    hide FindBlock, Head, IsLine, AreLines;
    if FindBlock(bytes, limits) == Found(startLine, lines, headerBytes) {
      FoundIsHead(bytes, limits);
      assert bytes[..headerBytes] == Head(startLine, lines);
    }
    if HasHead(bytes, startLine, lines, headerBytes, limits) {
      assert bytes[..headerBytes] == Head(startLine, lines);
      Split(bytes, headerBytes);
      HeadIsFound(startLine, lines, bytes[headerBytes..], limits);
    }
  }

  /** A request as its start line and its header lines say it. */
  ghost predicate SaysRequest(startLine: string, lines: seq<string>, r: RequestHead, limits: HttpLimits) {
    && IsRequestLine(startLine, RequestLine(r.httpMethod, r.path, r.version)) && NoneWrong([], lines, limits)
    && (if r.contentLength > 0 || r.httpMethod == "POST" then HasLength(lines, Some(r.contentLength))
        else HasLength(lines, None) || HasLength(lines, Some(0)))
    && (r.keepAlive <==> !AnnouncesClose(lines))
    && r.forwardHead == Head(startLine, Forwarded(lines) + [ConnectionLine(r.keepAlive)])
  }

  /** A response as its start line and its header lines say it: without a length only if its status has no
  body, and then with no other length than zero. */
  ghost predicate SaysResponse(startLine: string, lines: seq<string>, r: ResponseHead, limits: HttpLimits) {
    && (exists token, reason :: IsStatusLine(startLine, r.statusCode, token, reason)) && r.version == "HTTP/1.1"
    && NoneWrong([], lines, limits)
    && (if 100 <= r.statusCode < 200 || r.statusCode == 204 || r.statusCode == 304
        then r.contentLength == 0 && (HasLength(lines, None) || HasLength(lines, Some(0)))
        else HasLength(lines, Some(r.contentLength)))
    && (r.keepAlive <==> !AnnouncesClose(lines))
    && r.forwardHead == Head(startLine, Forwarded(lines) + [ConnectionLine(r.keepAlive)])
  }

  lemma OneLength(lines: seq<string>, a: Option<nat>, b: Option<nat>)
    requires HasLength(lines, a) && HasLength(lines, b)
    ensures a == b
  {
    hide ReadLine, NumberOf;
  }

  /** A request is accepted exactly when its bytes say it. */
  lemma RequestExactly(bytes: string, limits: HttpLimits, r: RequestHead, headerBytes: nat)
    ensures ParseRequest(bytes, limits) == Complete(r, headerBytes) <==>
      exists startLine, lines ::
        HasHead(bytes, startLine, lines, headerBytes, limits) && SaysRequest(startLine, lines, r, limits)
  {
    hide FindBlock, RequestOf, HasHead, SaysRequest;
    if ParseRequest(bytes, limits) == Complete(r, headerBytes) {
      var b := FindBlock(bytes, limits);
      FoundExactly(bytes, b.startLine, b.lines, headerBytes, limits);
      RequestSays(b.startLine, b.lines, limits, r);
    }
    if startLine, lines :|
        HasHead(bytes, startLine, lines, headerBytes, limits) && SaysRequest(startLine, lines, r, limits) {
      FoundExactly(bytes, startLine, lines, headerBytes, limits);
      RequestSays(startLine, lines, limits, r);
    }
  }

  lemma RequestSays(startLine: string, lines: seq<string>, limits: HttpLimits, r: RequestHead)
    ensures RequestOf(startLine, lines, limits) == Success(r) <==> SaysRequest(startLine, lines, r, limits)
  {
    hide ReadRequestLine, IsRequestLine, AddLines, NoneWrong, HasLength, AnnouncesClose, Forwarded, Head;
    RequestLineExactly(startLine, RequestLine(r.httpMethod, r.path, r.version));
    HeadersExactly(lines, limits);
    if AddLines(NO_HEADERS, lines, limits).Success? {
      var h := AddLines(NO_HEADERS, lines, limits).value;
      AllKept(lines, h, limits);
      LengthIsOne(lines, h.contentLength, r.contentLength);
    }
  }

  lemma LengthIsOne(lines: seq<string>, length: Option<nat>, n: nat)
    requires HasLength(lines, length)
    ensures HasLength(lines, None) <==> length == None
    ensures HasLength(lines, Some(0)) <==> length == Some(0)
    ensures HasLength(lines, Some(n)) <==> length == Some(n)
  {
    hide HasLength;
    if HasLength(lines, None) {
      OneLength(lines, length, None);
    }
    if HasLength(lines, Some(0)) {
      OneLength(lines, length, Some(0));
    }
    if HasLength(lines, Some(n)) {
      OneLength(lines, length, Some(n));
    }
  }

  /** A response is accepted exactly when its bytes say it. */
  lemma ResponseExactly(bytes: string, limits: HttpLimits, r: ResponseHead, headerBytes: nat)
    ensures ParseResponse(bytes, limits) == Complete(r, headerBytes) <==>
      exists startLine, lines ::
        HasHead(bytes, startLine, lines, headerBytes, limits) && SaysResponse(startLine, lines, r, limits)
  {
    hide FindBlock, ResponseOf, HasHead, SaysResponse;
    if ParseResponse(bytes, limits) == Complete(r, headerBytes) {
      var b := FindBlock(bytes, limits);
      FoundExactly(bytes, b.startLine, b.lines, headerBytes, limits);
      ResponseSays(b.startLine, b.lines, limits, r);
    }
    if startLine, lines :|
        HasHead(bytes, startLine, lines, headerBytes, limits) && SaysResponse(startLine, lines, r, limits) {
      FoundExactly(bytes, startLine, lines, headerBytes, limits);
      ResponseSays(startLine, lines, limits, r);
    }
  }

  lemma ResponseSays(startLine: string, lines: seq<string>, limits: HttpLimits, r: ResponseHead)
    ensures ResponseOf(startLine, lines, limits) == Success(r) <==> SaysResponse(startLine, lines, r, limits)
  {
    hide ReadStatusLine, IsStatusLine, AddLines, NoneWrong, HasLength, AnnouncesClose, Forwarded, Head;
    StatusLineExactly(startLine, r.statusCode);
    HeadersExactly(lines, limits);
    if AddLines(NO_HEADERS, lines, limits).Success? {
      var h := AddLines(NO_HEADERS, lines, limits).value;
      AllKept(lines, h, limits);
      LengthIsOne(lines, h.contentLength, r.contentLength);
    }
  }

  // ---------- Errors ----------

  /** A head is too long exactly when it does not end within the limit and the limit is reached. */
  lemma TooLongExactlyWhen(bytes: string, limits: HttpLimits)
    ensures FindBlock(bytes, limits) == TooLong <==>
      (|bytes| >= limits.maxHeaderBytes || exists k :: BlankAt(bytes, k))
      && forall k :: BlankAt(bytes, k) ==> k + 4 > limits.maxHeaderBytes
  {
    if FindBlank(bytes, 0).Some? {
      assert BlankAt(bytes, FindBlank(bytes, 0).value);
    }
  }

  /** The error of a request: too long, that of its start line, that of its first wrong header line, or a
  `POST` that announces no length. */
  lemma RequestErrorIs(bytes: string, limits: HttpLimits)
    requires ParseRequest(bytes, limits).Malformed?
    ensures var e, b := ParseRequest(bytes, limits).error, FindBlock(bytes, limits);
      || (e == HeaderTooLarge && b == TooLong)
      || (b.Found? && ReadRequestLine(b.startLine) == Failure(e))
      || (b.Found? && ReadRequestLine(b.startLine).Success? && ErrorIs([], b.lines, e, limits))
      || (b.Found? && e == UnsupportedFraming && ReadRequestLine(b.startLine).Success?
          && ReadRequestLine(b.startLine).value.httpMethod == "POST" && HasLength(b.lines, None))
  {
    hide FindBlock, ReadRequestLine, AddLines, HasLength, ErrorIs, NoneWrong, AnnouncesClose, Head, Forwarded;
    if FindBlock(bytes, limits).Found? {
      HeadersExactly(FindBlock(bytes, limits).lines, limits);
    }
  }

  /** The error of a response: too long, a wrong status line, that of its first wrong header line, a length
  where there is no body, or none where there is one. */
  lemma ResponseErrorIs(bytes: string, limits: HttpLimits)
    requires ParseResponse(bytes, limits).Malformed?
    ensures var e, b := ParseResponse(bytes, limits).error, FindBlock(bytes, limits);
      || (e == HeaderTooLarge && b == TooLong)
      || (b.Found? && e == BadSyntax && ReadStatusLine(b.startLine).Failure?)
      || (b.Found? && ReadStatusLine(b.startLine).Success? && ErrorIs([], b.lines, e, limits))
      || (b.Found? && e == UnsupportedFraming && ReadStatusLine(b.startLine).Success?
          && if StatusHasNoBody(ReadStatusLine(b.startLine).value)
             then exists n: nat :: n > 0 && HasLength(b.lines, Some(n)) else HasLength(b.lines, None))
  {
    hide FindBlock, ReadStatusLine, AddLines, HasLength, ErrorIs, NoneWrong, AnnouncesClose, Head, Forwarded;
    if FindBlock(bytes, limits).Found? {
      var b := FindBlock(bytes, limits);
      HeadersExactly(b.lines, limits);
      StatusErrors(b.startLine);
    }
  }

  lemma StatusErrors(line: string)
    ensures ReadStatusLine(line).Failure? ==> ReadStatusLine(line).error == BadSyntax
  {
  }
}
