/** What forwarding keeps: parsing is stable under more bytes, every parsed head is the print of its
lines, and the forwarded head is read back as the head it came from. */
module HttpForwarding {
  import opened HttpFields
  import opened HttpFramer
  import opened HttpSyntax
  import opened Wrappers

  // ---------- Printing and parsing ----------

  /** A printed head is found again, unless it is too long for the limit. */
  lemma HeadIsFound(startLine: string, lines: seq<string>, rest: string, limits: HttpLimits)
    requires IsLine(startLine) && AreLines(lines)
    ensures var head := Head(startLine, lines);
      FindBlock(head + rest, limits) ==
        if |head| <= limits.maxHeaderBytes then Found(startLine, lines, |head|) else TooLong
  {
    var head := Head(startLine, lines);
    BlankOfHead(startLine, lines, rest);
    FirstLineEnd(startLine, Text(lines) + CRLF);
    LinesOfText(lines, "");
    assert (head + rest)[..|head|] == head == startLine + CRLF + (Text(lines) + CRLF);
    assert head[..|startLine|] == startLine;
    assert head[|startLine| + 2..] == Text(lines) + CRLF == Text(lines) + CRLF + "";
  }

  /** What is found is a printed head. */
  lemma FoundIsHead(bytes: string, limits: HttpLimits)
    requires FindBlock(bytes, limits).Found?
    ensures var b := FindBlock(bytes, limits);
      && IsLine(b.startLine) && AreLines(b.lines) && b.headerBytes == |Head(b.startLine, b.lines)| <= |bytes|
      && bytes == Head(b.startLine, b.lines) + bytes[b.headerBytes..] && b.headerBytes <= limits.maxHeaderBytes
  {
    var end := FindBlank(bytes, 0).value;
    var block := bytes[..end + 4];
    FrontBlock(bytes, end);
    var e := FindCrlf(block, 0).value;
    BlockIsHead(block, e);
    assert FindBlock(bytes, limits) == Found(block[..e], LinesOf(block[e + 2..]), end + 4);
    Split(bytes, end + 4);
  }

  lemma Split(s: string, i: nat)
    requires i <= |s|
    ensures s == s[..i] + s[i..]
  {
  }

  lemma FrontBlock(bytes: string, end: nat)
    requires FindBlank(bytes, 0) == Some(end)
    ensures FindBlank(bytes[..end + 4], 0) == Some(end) && FindCrlf(bytes[..end + 4], 0).Some?
  {
    var block := bytes[..end + 4];
    assert CrlfAt(block, end);
    forall k | 0 <= k < end ensures !BlankAt(block, k) {
      assert !BlankAt(bytes, k);
    }
    FindBlankIs(block, end);
  }

  /** The head alone is found like the head and what follows it. */
  lemma BlockAlone(bytes: string, limits: HttpLimits)
    requires FindBlock(bytes, limits).Found?
    ensures FindBlock(bytes[..FindBlock(bytes, limits).headerBytes], limits) == FindBlock(bytes, limits)
  {
    var b := FindBlock(bytes, limits);
    FoundIsHead(bytes, limits);
    var head := Head(b.startLine, b.lines);
    HeadIsFound(b.startLine, b.lines, "", limits);
    assert head + "" == head == bytes[..b.headerBytes];
  }

  /** A verdict about a prefix stands whatever comes after. */
  lemma BlockIsStable(bytes: string, more: string, limits: HttpLimits)
    requires FindBlock(bytes, limits) != Missing
    ensures FindBlock(bytes + more, limits) == FindBlock(bytes, limits)
  {
    var all := bytes + more;
    forall k | k + 4 <= |bytes| ensures BlankAt(all, k) <==> BlankAt(bytes, k) {
    }
    match FindBlank(bytes, 0)
    case None =>
      match FindBlank(all, 0) {
        case None =>
        case Some(end) => assert end + 4 > |bytes|;
      }
    case Some(end) =>
      FindBlankIs(all, end);
      assert all[..end + 4] == bytes[..end + 4];
  }

  lemma RequestVerdictIsStable(bytes: string, more: string, limits: HttpLimits)
    requires !ParseRequest(bytes, limits).NeedMore?
    ensures ParseRequest(bytes + more, limits) == ParseRequest(bytes, limits)
  {
    BlockIsStable(bytes, more, limits);
  }

  lemma ResponseVerdictIsStable(bytes: string, more: string, limits: HttpLimits)
    requires !ParseResponse(bytes, limits).NeedMore?
    ensures ParseResponse(bytes + more, limits) == ParseResponse(bytes, limits)
  {
    BlockIsStable(bytes, more, limits);
  }

  /** More bytes are asked for exactly while there are fewer than the limit and no empty line. */
  lemma NeedMoreExactlyWhen(bytes: string, limits: HttpLimits)
    ensures ParseRequest(bytes, limits).NeedMore? <==>
      |bytes| < limits.maxHeaderBytes && forall k :: !BlankAt(bytes, k)
    ensures ParseResponse(bytes, limits).NeedMore? <==> ParseRequest(bytes, limits).NeedMore?
  {
    if FindBlank(bytes, 0).Some? {
      assert BlankAt(bytes, FindBlank(bytes, 0).value);
    }
  }

  // ---------- Reading the forwarded lines again ----------

  /** The lines that are not about the connection. */
  function Forwarded(lines: seq<string>): seq<string> {
    if lines == [] then [] else ForwardedOf(lines[0]) + Forwarded(lines[1..])
  }

  function ForwardedOf(line: string): seq<string> {
    match ReadLine(line)
    case Failure(_) => []
    case Success(header) => if IsConnection(header.lowerName) then [] else [line]
  }

  lemma {:induction false} ForwardedLines(lines: seq<string>)
    requires AreLines(lines)
    ensures AreLines(Forwarded(lines))
  {
    if lines != [] {
      ForwardedLines(lines[1..]);
    }
  }

  /** Two parser states that differ only in what connection lines do. */
  ghost predicate Alike(h: ParsedHeaders, g: ParsedHeaders) {
    h.contentLength == g.contentLength && Kept(h.lines) == Kept(g.lines) && g.keepAlive
  }

  lemma AddAlike(h: ParsedHeaders, g: ParsedHeaders, header: HeaderLine, limits: HttpLimits)
    requires Alike(h, g) && AddHeader(h, header, limits).Success?
    ensures var h' := AddHeader(h, header, limits).value;
      if IsConnection(header.lowerName) then Alike(h', g)
      else AddHeader(g, header, limits).Success? && Alike(h', AddHeader(g, header, limits).value)
  {
    hide Kept;
    KeptAppend(h.lines, [header]);
    KeptAppend(g.lines, [header]);
    if IsConnection(header.lowerName) {
      assert Kept([header]) == [] by {
        ConnectionIsDropped(header);
      }
      assert Kept(h.lines) + [] == Kept(h.lines);
    }
  }

  lemma ConnectionIsDropped(header: HeaderLine)
    requires IsConnection(header.lowerName)
    ensures Kept([header]) == []
  {
  }

  /** The forwarded lines are read without error, to the same length and the same lines to keep. */
  lemma {:induction false} ForwardedReads(h: ParsedHeaders, g: ParsedHeaders, lines: seq<string>, limits: HttpLimits)
    requires Alike(h, g) && AddLines(h, lines, limits).Success?
    ensures AddLines(g, Forwarded(lines), limits).Success?
    ensures Alike(AddLines(h, lines, limits).value, AddLines(g, Forwarded(lines), limits).value)
    decreases |lines|
  {
    if lines != [] {
      var header := ReadLine(lines[0]).value;
      AddAlike(h, g, header, limits);
      var h' := AddHeader(h, header, limits).value;
      if IsConnection(header.lowerName) {
        ForwardedReads(h', g, lines[1..], limits);
        assert Forwarded(lines) == Forwarded(lines[1..]);
      } else {
        ForwardedReads(h', AddHeader(g, header, limits).value, lines[1..], limits);
        assert Forwarded(lines)[0] == lines[0] && Forwarded(lines)[1..] == Forwarded(lines[1..]);
      }
    }
  }

  /** The lines to keep are the forwarded ones, verbatim. */
  lemma {:induction false} KeptIsForwarded(h: ParsedHeaders, lines: seq<string>, limits: HttpLimits)
    requires AddLines(h, lines, limits).Success?
    ensures Kept(AddLines(h, lines, limits).value.lines) == Kept(h.lines) + Forwarded(lines)
    decreases |lines|
  {
    if lines != [] {
      var header := ReadLine(lines[0]).value;
      var h' := AddHeader(h, header, limits).value;
      HeaderIsKept(h, lines[0], limits);
      KeptIsForwarded(h', lines[1..], limits);
    }
  }

  lemma HeaderIsKept(h: ParsedHeaders, line: string, limits: HttpLimits)
    requires ReadLine(line).Success? && AddHeader(h, ReadLine(line).value, limits).Success?
    ensures Kept(AddHeader(h, ReadLine(line).value, limits).value.lines) == Kept(h.lines) + ForwardedOf(line)
  {
    var header := ReadLine(line).value;
    KeptAppend(h.lines, [header]);
    assert Kept([header]) == KeptOf(header) == ForwardedOf(line);
  }

  lemma AllKept(lines: seq<string>, h: ParsedHeaders, limits: HttpLimits)
    requires AddLines(NO_HEADERS, lines, limits) == Success(h)
    ensures Kept(h.lines) == Forwarded(lines)
  {
    KeptIsForwarded(NO_HEADERS, lines, limits);
    assert Kept(NO_HEADERS.lines) + Forwarded(lines) == Forwarded(lines);
  }

  lemma {:induction false} AddLast(h: ParsedHeaders, lines: seq<string>, last: string, limits: HttpLimits)
    requires AddLines(h, lines, limits).Success?
    ensures AddLines(h, lines + [last], limits) == AddLines(AddLines(h, lines, limits).value, [last], limits)
    decreases |lines|
  {
    if lines == [] {
      assert lines + [last] == [last];
    } else {
      var more := AddHeader(h, ReadLine(lines[0]).value, limits).value;
      AddLast(more, lines[1..], last, limits);
      assert (lines + [last])[1..] == lines[1..] + [last];
    }
  }

  function Option(keepAlive: bool): string {
    if keepAlive then "keep-alive" else "close"
  }

  lemma TrimmedValue(value: string)
    requires value != "" && !IsOws(value[0]) && !IsOws(value[|value| - 1])
    ensures Trim(value) == value && Trim(" " + value) == value
  {
    assert (" " + value)[1..] == value;
    assert TrimFront(value) == value && TrimFront(" " + value) == value;
  }

  lemma NameEnds(name: string, rest: string)
    requires ValidHeaderName(name)
    ensures FindChar(name + ":" + rest, ':', 0) == Some(|name|)
  {
    var line := name + ":" + rest;
    assert line[|name|] == ':';
    forall k | 0 <= k < |name| ensures line[k] != ':' {
      assert IsTokenCharacter(name[k]);
    }
  }

  /** A plain header line is read as its name and its value. */
  lemma PlainLineReads(name: string, value: string, line: string)
    requires ValidHeaderName(name) && ValidHeaderValue(value) && line == name + ":" + (" " + value)
    requires value != "" && !IsOws(value[0]) && !IsOws(value[|value| - 1])
    ensures ReadLine(line) == Success(HeaderLine(Lower(name), value, line))
  {
    hide Trim, Lower, ValidHeaderValue, ValidHeaderName, IsOws;
    NameBegins(name);
    NameEnds(name, " " + value);
    NameAndValue(name, " " + value);
    TrimmedValue(value);
  }

  lemma NameBegins(name: string)
    requires ValidHeaderName(name)
    ensures name != "" && !IsOws(name[0])
  {
    assert IsTokenCharacter(name[0]);
  }

  lemma NameAndValue(name: string, value: string)
    requires name != ""
    ensures var line := name + ":" + value;
      line != "" && line[0] == name[0] && line[..|name|] == name && line[|name| + 1..] == value
  {
  }

  lemma OptionReads(keepAlive: bool)
    ensures Options(Option(keepAlive)) == [Option(keepAlive)]
  {
    var option := Option(keepAlive);
    assert forall k :: 0 <= k < |option| ==> option[k] != ',';
    TrimmedValue(option);
    assert Lower(option) == option;
  }

  lemma ConnectionLineReads(keepAlive: bool)
    ensures ReadLine(ConnectionLine(keepAlive)) ==
      Success(HeaderLine("connection", Option(keepAlive), ConnectionLine(keepAlive)))
    ensures ConnectionLine(keepAlive) != ""
  {
    hide ReadLine;
    ConnectionText(keepAlive);
    LowerConnection();
    PlainLineReads("Connection", Option(keepAlive), ConnectionLine(keepAlive));
  }

  lemma ConnectionText(keepAlive: bool)
    ensures ConnectionLine(keepAlive) == "Connection" + ":" + (" " + Option(keepAlive))
  {
  }

  lemma LowerConnection()
    ensures Lower("Connection") == "connection"
  {
  }

  lemma ConnectionLineIsLine(keepAlive: bool)
    ensures ConnectionLine(keepAlive) != "" && IsLine(ConnectionLine(keepAlive))
  {
    var line := ConnectionLine(keepAlive);
    assert forall k :: 0 <= k < |line| ==> line[k] != '\r';
  }

  /** Reading back what is forwarded: nothing is lost but the connection lines, and the one that was
  added says what it was made to say. */
  lemma ForwardIsReadBack(lines: seq<string>, limits: HttpLimits, h: ParsedHeaders, keepAlive: bool)
    requires AddLines(NO_HEADERS, lines, limits) == Success(h)
    ensures var again := AddLines(NO_HEADERS, Kept(h.lines) + [ConnectionLine(keepAlive)], limits);
      && again.Success? && again.value.contentLength == h.contentLength
      && again.value.keepAlive == keepAlive && Kept(again.value.lines) == Kept(h.lines)
  {
    ForwardedReads(NO_HEADERS, NO_HEADERS, lines, limits);
    AllKept(lines, h, limits);
    var line := ConnectionLine(keepAlive);
    AddLast(NO_HEADERS, Forwarded(lines), line, limits);
    var g := AddLines(NO_HEADERS, Forwarded(lines), limits).value;
    ConnectionLineAdds(g, keepAlive, limits);
  }

  lemma ConnectionLineAdds(g: ParsedHeaders, keepAlive: bool, limits: HttpLimits)
    requires g.keepAlive
    ensures var more := AddLines(g, [ConnectionLine(keepAlive)], limits);
      && more.Success? && more.value.contentLength == g.contentLength
      && more.value.keepAlive == keepAlive && Kept(more.value.lines) == Kept(g.lines)
  {
    hide ReadLine, AddHeader, Kept;
    ConnectionLineReads(keepAlive);
    var header := HeaderLine("connection", Option(keepAlive), ConnectionLine(keepAlive));
    OptionReads(keepAlive);
    KeptAppend(g.lines, [header]);
    ConnectionIsDropped(header);
    assert Kept(g.lines) + [] == Kept(g.lines);
    ConnectionHeaderAdds(g, header, keepAlive, limits);
    OnlyLine(g, ConnectionLine(keepAlive), header, limits);
  }

  lemma OnlyLine(g: ParsedHeaders, line: string, header: HeaderLine, limits: HttpLimits)
    requires ReadLine(line) == Success(header) && AddHeader(g, header, limits).Success?
    ensures AddLines(g, [line], limits) == AddHeader(g, header, limits)
  {
    hide ReadLine, AddHeader;
    var h := AddHeader(g, header, limits).value;
    assert [line][1..] == [] && AddLines(h, [], limits) == Success(h);
  }

  lemma ConnectionHeaderAdds(g: ParsedHeaders, header: HeaderLine, keepAlive: bool, limits: HttpLimits)
    requires g.keepAlive && header.lowerName == "connection" && Options(header.value) == [Option(keepAlive)]
    requires Kept(g.lines + [header]) == Kept(g.lines)
    ensures var more := AddHeader(g, header, limits);
      && more.Success? && more.value.contentLength == g.contentLength
      && more.value.keepAlive == keepAlive && Kept(more.value.lines) == Kept(g.lines)
  {
    hide Options, Kept;
  }

  // ---------- The forwarded head is read back as the same head ----------

  /** The head that is forwarded with either flag for the connection. */
  function Forward(startLine: string, h: ParsedHeaders, keepAlive: bool): string {
    ForwardHead(startLine, h.(keepAlive := keepAlive))
  }

  /** It is printed from proper lines and found as a block. */
  lemma ForwardIsFound(startLine: string, lines: seq<string>, h: ParsedHeaders, keepAlive: bool, rest: string,
                       limits: HttpLimits, wider: HttpLimits)
    requires IsLine(startLine) && AreLines(lines) && AddLines(NO_HEADERS, lines, limits) == Success(h)
    ensures var forward := Forward(startLine, h, keepAlive);
      FindBlock(forward + rest, wider) ==
        if |forward| <= wider.maxHeaderBytes
        then Found(startLine, Kept(h.lines) + [ConnectionLine(keepAlive)], |forward|) else TooLong
  {
    hide FindBlock, IsLine, ConnectionLine, Head;
    AllKept(lines, h, limits);
    ForwardedLines(lines);
    ConnectionLineIsLine(keepAlive);
    HeadIsFound(startLine, Kept(h.lines) + [ConnectionLine(keepAlive)], rest, wider);
  }

  /** Only the body limit matters for the lines. */
  lemma {:induction false} SameBodyLimit(h: ParsedHeaders, lines: seq<string>, a: HttpLimits, b: HttpLimits)
    requires a.maxBodyBytes == b.maxBodyBytes
    ensures AddLines(h, lines, a) == AddLines(h, lines, b)
    decreases |lines|
  {
    if lines != [] && ReadLine(lines[0]).Success? && AddHeader(h, ReadLine(lines[0]).value, a).Success? {
      SameBodyLimit(AddHeader(h, ReadLine(lines[0]).value, a).value, lines[1..], a, b);
    }
  }

  lemma SameRequest(startLine: string, lines: seq<string>, h: ParsedHeaders, limits: HttpLimits, wider: HttpLimits)
    requires RequestOf(startLine, lines, limits).Success? && AddLines(NO_HEADERS, lines, limits) == Success(h)
    requires wider.maxBodyBytes == limits.maxBodyBytes
    ensures RequestOf(startLine, Kept(h.lines) + [ConnectionLine(h.keepAlive)], wider)
         == RequestOf(startLine, lines, limits)
  {
    ForwardIsReadBack(lines, limits, h, h.keepAlive);
    SameBodyLimit(NO_HEADERS, Kept(h.lines) + [ConnectionLine(h.keepAlive)], limits, wider);
  }

  /** Reading a forwarded request head, followed by anything, gives the very head it was made for,
  with the same forwarded head, if it is within the limit on heads. */
  lemma RequestFixpoint(bytes: string, limits: HttpLimits, rest: string, wider: HttpLimits)
    requires ParseRequest(bytes, limits).Complete? && wider.maxBodyBytes == limits.maxBodyBytes
    ensures var head := ParseRequest(bytes, limits).head;
      ParseRequest(head.forwardHead + rest, wider) ==
        if |head.forwardHead| <= wider.maxHeaderBytes then Complete(head, |head.forwardHead|)
        else Malformed(HeaderTooLarge)
  {
    var b := FindBlock(bytes, limits);
    FoundIsHead(bytes, limits);
    var h := AddLines(NO_HEADERS, b.lines, limits).value;
    assert h.(keepAlive := h.keepAlive) == h;
    ForwardIsFound(b.startLine, b.lines, h, h.keepAlive, rest, limits, wider);
    SameRequest(b.startLine, b.lines, h, limits, wider);
  }

  // ---------- Responses, whose connection line the session may turn to close ----------

  predicate OccursAt(s: string, p: string, i: int) {
    0 <= i && i + |p| <= |s| && s[i..i + |p|] == p
  }

  /** The last place below `bound` where `p` occurs. */
  function FindLast(s: string, p: string, bound: nat): (r: Option<nat>)
    ensures r.Some? ==> r.value < bound && OccursAt(s, p, r.value)
    ensures r.Some? ==> forall k :: r.value < k < bound ==> !OccursAt(s, p, k)
    ensures r.None? ==> forall k :: 0 <= k < bound ==> !OccursAt(s, p, k)
  {
    if bound == 0 then None
    else if OccursAt(s, p, bound - 1) then Some(bound - 1)
    else FindLast(s, p, bound - 1)
  }

  /** Rewrites the last connection header. */
  function NormalizeConnection(head: string, keepAlive: bool): string {
    match FindLast(head, "Connection: ", |head| + 1)
    case None => head
    case Some(start) =>
      match FindCrlf(head, start)
      case None => head
      case Some(end) => head[..start] + ConnectionLine(keepAlive) + head[end..]
  }

  /** In what closes a head, the header name occurs only at the front. */
  lemma ClosingLine(keepAlive: bool)
    ensures var text := ConnectionLine(keepAlive) + CRLF + CRLF;
      && |text| >= 12 && text[..12] == "Connection: "
      && forall k :: 0 < k < |text| ==> text[k] != 'C'
  {
    ClosingText(keepAlive);
    var text := ConnectionLine(keepAlive) + CRLF + CRLF;
    assert text[..12] == "Connection: ";
  }

  /** Rewriting the connection header of a forwarded head is forwarding with the other flag. */
  lemma NormalizedIsForward(startLine: string, h: ParsedHeaders, keepAlive: bool)
    ensures NormalizeConnection(ForwardHead(startLine, h), keepAlive) == Forward(startLine, h, keepAlive)
  {
    var front := startLine + CRLF + Text(Kept(h.lines));
    HeadWithLast(startLine, Kept(h.lines), ConnectionLine(h.keepAlive));
    HeadWithLast(startLine, Kept(h.lines), ConnectionLine(keepAlive));
    NormalizedText(front, h.keepAlive, keepAlive);
  }

  lemma NormalizedText(front: string, before: bool, after: bool)
    ensures NormalizeConnection(front + (ConnectionLine(before) + CRLF + CRLF), after)
         == front + (ConnectionLine(after) + CRLF + CRLF)
  {
    hide FindLast, FindCrlf, ConnectionLine, IsLine;
    var line := ConnectionLine(before);
    var s := front + (line + CRLF + CRLF);
    LastIsClosing(front, before);
    ConnectionLineIsLine(before);
    assert s[|front|..] == line + CRLF + CRLF;
    LineEndAt(s, |front|, line, CRLF);
    assert s[..|front|] == front && s[|front| + |line|..] == CRLF + CRLF;
  }

  lemma LastIsClosing(front: string, keepAlive: bool)
    ensures var s := front + (ConnectionLine(keepAlive) + CRLF + CRLF);
      FindLast(s, "Connection: ", |s| + 1) == Some(|front|)
  {
    ClosingLine(keepAlive);
    var text := ConnectionLine(keepAlive) + CRLF + CRLF;
    var s := front + text;
    assert s[|front|..|front| + 12] == text[..12];
    assert OccursAt(s, "Connection: ", |front|);
    forall k | |front| < k < |s| + 1 ensures !OccursAt(s, "Connection: ", k) {
      if k + 12 <= |s| {
        assert s[k..k + 12][0] == s[k] == text[k - |front|];
      }
    }
  }

  lemma LineEndAt(s: string, start: nat, line: string, tail: string)
    requires start <= |s| && s[start..] == line + CRLF + tail && IsLine(line)
    ensures FindCrlf(s, start) == Some(start + |line|)
  {
    hide IsLine, FindCrlf;
    FindCrlfFrom(s, start, 0);
    FirstLineEnd(line, tail);
  }

  lemma ResponseReadBack(startLine: string, lines: seq<string>, h: ParsedHeaders, keepAlive: bool,
                         limits: HttpLimits, wider: HttpLimits)
    requires ResponseOf(startLine, lines, limits).Success? && AddLines(NO_HEADERS, lines, limits) == Success(h)
    requires wider.maxBodyBytes == limits.maxBodyBytes
    ensures var head := ResponseOf(startLine, lines, limits).value;
      ResponseOf(startLine, Kept(h.lines) + [ConnectionLine(keepAlive)], wider)
        == Success(head.(forwardHead := Forward(startLine, h, keepAlive), keepAlive := keepAlive))
  {
    hide AddLines, Kept, ConnectionLine, ReadStatusLine, Head;
    ForwardIsReadBack(lines, limits, h, keepAlive);
    SameBodyLimit(NO_HEADERS, Kept(h.lines) + [ConnectionLine(keepAlive)], limits, wider);
  }

  /** Reading a forwarded response head, with its connection line rewritten either way, gives the head
  it was made for but for that flag. Left as it was made, it is read back as exactly that head. */
  lemma ResponseFixpoint(bytes: string, limits: HttpLimits, keepAlive: bool, rest: string, wider: HttpLimits)
    requires ParseResponse(bytes, limits).Complete? && wider.maxBodyBytes == limits.maxBodyBytes
    ensures var head := ParseResponse(bytes, limits).head;
            var forward := NormalizeConnection(head.forwardHead, keepAlive);
      && (keepAlive == head.keepAlive ==> forward == head.forwardHead)
      && ParseResponse(forward + rest, wider) ==
        if |forward| <= wider.maxHeaderBytes
        then Complete(head.(forwardHead := forward, keepAlive := keepAlive), |forward|) else Malformed(HeaderTooLarge)
  {
    var b := FindBlock(bytes, limits);
    FoundIsHead(bytes, limits);
    var h := AddLines(NO_HEADERS, b.lines, limits).value;
    assert h.(keepAlive := h.keepAlive) == h;
    NormalizedIsForward(b.startLine, h, keepAlive);
    ForwardIsFound(b.startLine, b.lines, h, keepAlive, rest, limits, wider);
    ResponseReadBack(b.startLine, b.lines, h, keepAlive, limits, wider);
  }

  lemma SameLimits(startLine: string, lines: seq<string>, a: HttpLimits, b: HttpLimits)
    requires a.maxBodyBytes == b.maxBodyBytes
    ensures ResponseOf(startLine, lines, a) == ResponseOf(startLine, lines, b)
  {
    SameBodyLimit(NO_HEADERS, lines, a, b);
  }

  lemma ParsedIsFound(bytes: string, limits: HttpLimits)
    requires ParseResponse(bytes, limits).Complete?
    ensures var b := FindBlock(bytes, limits);
      b.Found? && ResponseOf(b.startLine, b.lines, limits).Success? && b.headerBytes == ParseResponse(bytes, limits).headerBytes
  {
  }

  /** A wider limit on heads and more bytes change nothing about a head that was read. */
  lemma ResponseInWider(bytes: string, rest: string, limits: HttpLimits, wider: HttpLimits)
    requires ParseResponse(bytes, limits).Complete?
    requires wider.maxBodyBytes == limits.maxBodyBytes && wider.maxHeaderBytes >= limits.maxHeaderBytes
    ensures ParseResponse(bytes + rest, wider) == ParseResponse(bytes, limits)
    ensures 0 < ParseResponse(bytes, limits).headerBytes <= |bytes|
  {
    hide ResponseOf, FindBlock, IsLine;
    assert FindBlock(bytes, limits).Found? by {
      ParsedIsFound(bytes, limits);
    }
    var b := FindBlock(bytes, limits);
    FoundIsHead(bytes, limits);
    var head := Head(b.startLine, b.lines);
    assert bytes + rest == head + (bytes[b.headerBytes..] + rest);
    HeadIsFound(b.startLine, b.lines, bytes[b.headerBytes..] + rest, wider);
    SameLimits(b.startLine, b.lines, limits, wider);
  }

  // ---------- How long a forwarded head gets ----------

  ghost predicate PassesOn(line: string) {
    ReadLine(line).Success? && !IsConnection(ReadLine(line).value.lowerName)
  }

  ghost predicate NoConnectionLine(lines: seq<string>) {
    forall i :: 0 <= i < |lines| ==> PassesOn(lines[i])
  }

  lemma FirstAndRest(lines: seq<string>)
    requires lines != []
    ensures NoConnectionLine(lines) <==> PassesOn(lines[0]) && NoConnectionLine(lines[1..])
  {
    if PassesOn(lines[0]) && NoConnectionLine(lines[1..]) {
      forall i | 0 <= i < |lines| ensures PassesOn(lines[i]) {
        if i > 0 {
          assert lines[i] == lines[1..][i - 1];
        }
      }
    }
  }

  lemma {:induction false} ForwardedIsShorter(lines: seq<string>)
    ensures |Text(Forwarded(lines))| <= |Text(lines)|
    ensures NoConnectionLine(lines) ==> Forwarded(lines) == lines
    ensures !NoConnectionLine(lines) ==> |Text(Forwarded(lines))| < |Text(lines)|
  {
    if lines != [] {
      ForwardedIsShorter(lines[1..]);
      FirstAndRest(lines);
      if PassesOn(lines[0]) {
        assert Forwarded(lines) == [lines[0]] + Forwarded(lines[1..]);
      } else {
        assert Forwarded(lines) == Forwarded(lines[1..]);
      }
    }
  }

  lemma {:induction false} StaysAlive(h: ParsedHeaders, lines: seq<string>, limits: HttpLimits)
    requires NoConnectionLine(lines) && AddLines(h, lines, limits).Success?
    ensures AddLines(h, lines, limits).value.keepAlive == h.keepAlive
    decreases |lines|
  {
    if lines != [] {
      FirstAndRest(lines);
      StaysAlive(AddHeader(h, ReadLine(lines[0]).value, limits).value, lines[1..], limits);
    }
  }

  /** Forwarding adds at most 24 bytes, and adds 24 exactly when there was no connection line. */
  lemma ForwardLength(startLine: string, lines: seq<string>, h: ParsedHeaders, limits: HttpLimits)
    requires AddLines(NO_HEADERS, lines, limits) == Success(h)
    ensures var before, after := |Head(startLine, lines)|, |ForwardHead(startLine, h)|;
      after <= before + 24 && (after == before + 24 <==> NoConnectionLine(lines))
  {
    AllKept(lines, h, limits);
    ForwardedIsShorter(lines);
    HeadWithLast(startLine, Kept(h.lines), ConnectionLine(h.keepAlive));
    if NoConnectionLine(lines) {
      StaysAlive(NO_HEADERS, lines, limits);
    }
  }

  lemma RequestForwardLength(bytes: string, limits: HttpLimits)
    requires ParseRequest(bytes, limits).Complete?
    ensures |ParseRequest(bytes, limits).head.forwardHead| <= ParseRequest(bytes, limits).headerBytes + 24
  {
    var b := FindBlock(bytes, limits);
    FoundIsHead(bytes, limits);
    ForwardLength(b.startLine, b.lines, AddLines(NO_HEADERS, b.lines, limits).value, limits);
  }

  lemma ResponseForwardLength(bytes: string, limits: HttpLimits)
    requires ParseResponse(bytes, limits).Complete?
    ensures |ParseResponse(bytes, limits).head.forwardHead| <= ParseResponse(bytes, limits).headerBytes + 24
  {
    var b := FindBlock(bytes, limits);
    FoundIsHead(bytes, limits);
    ForwardLength(b.startLine, b.lines, AddLines(NO_HEADERS, b.lines, limits).value, limits);
  }
}
