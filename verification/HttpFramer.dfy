/** The incremental parser of message heads and the head that is forwarded in their place. */
module HttpFramer {
  import opened Buffer
  import opened HttpFields
  import opened HttpSyntax
  import opened Sequences
  import opened Wrappers

  datatype HttpLimits = HttpLimits(maxHeaderBytes: nat, maxBodyBytes: nat)

  datatype HttpParseError = BadSyntax | HeaderTooLarge | BodyTooLarge | UnsupportedMethod | UnsupportedFraming

  datatype HeaderLine = HeaderLine(lowerName: string, value: string, original: string)

  datatype ParsedHeaders = ParsedHeaders(lines: seq<HeaderLine>, contentLength: Option<nat>, keepAlive: bool)

  const NO_HEADERS: ParsedHeaders := ParsedHeaders([], None, true)

  datatype RequestHead = RequestHead(
    httpMethod: string, path: string, version: string, forwardHead: string, contentLength: nat, keepAlive: bool)

  datatype ResponseHead = ResponseHead(
    statusCode: nat, version: string, forwardHead: string, contentLength: nat, keepAlive: bool)

  datatype ParseResult<T> = NeedMore | Complete(head: T, headerBytes: nat) | Malformed(error: HttpParseError)

  // ---------- Header lines ----------

  predicate IsConnection(lowerName: string) {
    lowerName == "connection" || lowerName == "proxy-connection"
  }

  function ReadLine(line: string): Result<HeaderLine, HttpParseError> {
    if line == "" || IsOws(line[0]) then Failure(BadSyntax)
    else match FindChar(line, ':', 0)
      case None => Failure(BadSyntax)
      case Some(colon) =>
        var name, value := line[..colon], Trim(line[colon + 1..]);
        if ValidHeaderName(name) && ValidHeaderValue(value)
        then Success(HeaderLine(Lower(name), value, line)) else Failure(BadSyntax)
  }

  /** What one more header line makes of the headers in front of it. */
  function AddHeader(h: ParsedHeaders, header: HeaderLine, limits: HttpLimits): Result<ParsedHeaders, HttpParseError> {
    var more := h.(lines := h.lines + [header]);
    if header.lowerName == "transfer-encoding" || header.lowerName == "upgrade" then Failure(UnsupportedFraming)
    else if header.lowerName == "content-length" then
      match Length(header.value)
      case None => Failure(BadSyntax)
      case Some(length) =>
        if h.contentLength.Some? && h.contentLength.value != length then Failure(BadSyntax)
        else if length > limits.maxBodyBytes then Failure(BodyTooLarge)
        else Success(more.(contentLength := Some(length)))
    else if IsConnection(header.lowerName) then
      var options := Options(header.value);
      if KnownOptions(options) then Success(more.(keepAlive := h.keepAlive && "close" !in options))
      else Failure(UnsupportedFraming)
    else Success(more)
  }

  /** The headers of a list of lines; the first wrong line decides the error. */
  function AddLines(h: ParsedHeaders, lines: seq<string>, limits: HttpLimits): Result<ParsedHeaders, HttpParseError>
    decreases |lines|
  {
    if lines == [] then Success(h)
    else match ReadLine(lines[0])
      case Failure(e) => Failure(e)
      case Success(header) =>
        match AddHeader(h, header, limits)
        case Failure(e) => Failure(e)
        case Success(more) => AddLines(more, lines[1..], limits)
  }

  /** One line as the loop of the parser treats it. */
  method ParseHeaderLine(h: ParsedHeaders, line: string, limits: HttpLimits)
    returns (r: Result<ParsedHeaders, HttpParseError>)
    requires line != ""
    ensures r == match ReadLine(line) case Failure(e) => Failure(e) case Success(header) => AddHeader(h, header, limits)
  {
    if line[0] == ' ' || line[0] == '\t' {
      return Failure(BadSyntax);
    }
    var colon := FindChar(line, ':', 0);
    if colon.None? {
      return Failure(BadSyntax);
    }
    var name := line[..colon.value];
    var value := TrimOws(line[colon.value + 1..]);
    if !ValidHeaderName(name) || !ValidHeaderValue(value) {
      return Failure(BadSyntax);
    }
    var lowerName := LowerAscii(name);
    var parsed := h;
    if lowerName == "transfer-encoding" || lowerName == "upgrade" {
      return Failure(UnsupportedFraming);
    }
    if lowerName == "content-length" {
      var length := ParseDecimal(value);
      LengthOfTrimmed(line[colon.value + 1..]);
      if length.None? {
        return Failure(BadSyntax);
      }
      if parsed.contentLength.Some? && parsed.contentLength.value != length.value {
        return Failure(BadSyntax);
      }
      if length.value > limits.maxBodyBytes {
        return Failure(BodyTooLarge);
      }
      parsed := parsed.(contentLength := length);
    } else if lowerName == "connection" || lowerName == "proxy-connection" {
      var ok, keepAlive := ParseConnectionTokens(value, parsed.keepAlive);
      if !ok {
        return Failure(UnsupportedFraming);
      }
      parsed := parsed.(keepAlive := keepAlive);
    }
    return Success(parsed.(lines := parsed.lines + [HeaderLine(lowerName, value, line)]));
  }

  /** A position in the block where a header line or the final empty line begins. */
  ghost predicate AtLineStart(block: string, cursor: int) {
    0 <= cursor <= |block| - 4 || cursor == |block| - 2
  }

  lemma NextLineStart(block: string, cursor: nat, lineEnd: nat)
    requires BlankAt(block, |block| - 4) && AtLineStart(block, cursor)
    requires FindCrlf(block, cursor) == Some(lineEnd) && lineEnd != cursor
    ensures AtLineStart(block, lineEnd + 2)
  {
    assert CrlfAt(block, |block| - 4) && CrlfAt(block, |block| - 2);
  }

  lemma LineEndFound(block: string, cursor: nat)
    requires BlankAt(block, |block| - 4) && AtLineStart(block, cursor)
    ensures FindCrlf(block, cursor).Some?
  {
    assert CrlfAt(block, |block| - 2);
  }

  /** Searching from a position is searching in what is left from there. */
  lemma {:induction false} FindCrlfFrom(s: string, dropped: nat, start: nat)
    requires dropped + start <= |s|
    ensures FindCrlf(s, dropped + start) ==
      match FindCrlf(s[dropped..], start) case None => None case Some(e) => Some(dropped + e)
    decreases |s| - start
  {
    if dropped + start + 2 <= |s| && !CrlfAt(s, dropped + start) {
      FindCrlfFrom(s, dropped, start + 1);
    }
  }

  method ParseHeaderLines(block: string, firstLineEnd: nat, limits: HttpLimits)
    returns (r: Result<ParsedHeaders, HttpParseError>)
    requires |block| >= 4 && BlankAt(block, |block| - 4) && FindCrlf(block, 0) == Some(firstLineEnd)
    requires firstLineEnd != 0
    ensures r == AddLines(NO_HEADERS, LinesOf(block[firstLineEnd + 2..]), limits)
  {
    hide AddLines, LinesOf, BlankAt;
    var cursor := firstLineEnd + 2;
    var parsed := NO_HEADERS;
    NextLineStart(block, 0, firstLineEnd);
    ghost var result := AddLines(NO_HEADERS, LinesOf(block[cursor..]), limits);
    while cursor + 2 <= |block|
      invariant AtLineStart(block, cursor)
      invariant AddLines(parsed, LinesOf(block[cursor..]), limits) == result
      decreases |block| - cursor
    {
      var lineEnd := FindCrlf(block, cursor);
      LineEndFound(block, cursor);
      if lineEnd.None? {
        // The block ends with a line end.
        assert false;
      }
      if lineEnd.value == cursor {
        LastLine(parsed, block, cursor, limits);
        break;
      }
      NextLineStart(block, cursor, lineEnd.value);
      var more := ParseLineAt(parsed, block, cursor, lineEnd.value, limits);
      if more.Failure? {
        return Failure(more.error);
      }
      parsed := more.value;
      cursor := lineEnd.value + 2;
    }
    return Success(parsed);
  }

  method ParseLineAt(h: ParsedHeaders, block: string, cursor: nat, lineEnd: nat, limits: HttpLimits)
    returns (r: Result<ParsedHeaders, HttpParseError>)
    requires cursor <= |block| && FindCrlf(block, cursor) == Some(lineEnd) && lineEnd != cursor
    ensures AddLines(h, LinesOf(block[cursor..]), limits) ==
      match r case Failure(e) => Failure(e) case Success(more) => AddLines(more, LinesOf(block[lineEnd + 2..]), limits)
  {
    LineStep(block, cursor, lineEnd);
    var line := block[cursor..lineEnd];
    r := ParseHeaderLine(h, line, limits);
    assert ([line] + LinesOf(block[lineEnd + 2..]))[1..] == LinesOf(block[lineEnd + 2..]);
  }

  lemma LastLine(h: ParsedHeaders, block: string, cursor: nat, limits: HttpLimits)
    requires cursor <= |block| && FindCrlf(block, cursor) == Some(cursor)
    ensures AddLines(h, LinesOf(block[cursor..]), limits) == Success(h)
  {
    FindCrlfFrom(block, cursor, 0);
    assert LinesOf(block[cursor..]) == [];
  }

  lemma LineStep(block: string, cursor: nat, lineEnd: nat)
    requires cursor <= |block| && FindCrlf(block, cursor) == Some(lineEnd) && lineEnd != cursor
    ensures LinesOf(block[cursor..]) == [block[cursor..lineEnd]] + LinesOf(block[lineEnd + 2..])
  {
    hide LinesOf, FindCrlf;
    FindCrlfFrom(block, cursor, 0);
    FirstLineOf(block[cursor..], lineEnd - cursor);
    assert block[cursor..][..lineEnd - cursor] == block[cursor..lineEnd];
    assert block[cursor..][lineEnd - cursor + 2..] == block[lineEnd + 2..];
  }

  lemma FirstLineOf(s: string, e: nat)
    requires FindCrlf(s, 0) == Some(e) && e != 0
    ensures LinesOf(s) == [s[..e]] + LinesOf(s[e + 2..])
  {
  }

  /** Trimming twice is trimming once, so the length of a trimmed value is that of the value. */
  lemma LengthOfTrimmed(s: string)
    ensures Trim(Trim(s)) == Trim(s)
  {
    TrimExactly(s, Trim(s));
    assert TrimmedTo(Trim(s), Trim(s), "", "") by {
      var front, back :| TrimmedTo(s, Trim(s), front, back);
    }
    TrimExactly(Trim(s), Trim(s));
  }

  // ---------- The forwarded head ----------

  /** The lines that are passed on: all but those about the connection. */
  function Kept(lines: seq<HeaderLine>): seq<string> {
    if lines == [] then [] else KeptOf(lines[0]) + Kept(lines[1..])
  }

  function KeptOf(line: HeaderLine): seq<string> {
    if IsConnection(line.lowerName) then [] else [line.original]
  }

  function ConnectionLine(keepAlive: bool): string {
    if keepAlive then "Connection: keep-alive" else "Connection: close"
  }

  function ForwardHead(startLine: string, h: ParsedHeaders): string {
    Head(startLine, Kept(h.lines) + [ConnectionLine(h.keepAlive)])
  }

  lemma {:induction false} KeptAppend(a: seq<HeaderLine>, b: seq<HeaderLine>)
    ensures Kept(a + b) == Kept(a) + Kept(b)
  {
    hide KeptOf;
    if a == [] {
      assert a + b == b;
    } else {
      KeptAppend(a[1..], b);
      FirstOfAppended(a, b);
      Regroup(KeptOf(a[0]), Kept(a[1..]), Kept(b));
    }
  }

  method BuildForwardHead(startLine: string, h: ParsedHeaders) returns (result: string)
    ensures result == ForwardHead(startLine, h)
  {
    hide Text, Kept, Head, ConnectionLine;
    result := startLine + "\r\n";
    NothingKept(h.lines, result);
    for i := 0 to |h.lines|
      invariant result == startLine + CRLF + Text(Kept(h.lines[..i]))
    {
      var header := h.lines[i];
      KeptStep(h.lines, i);
      EmptyBehind(result);
      if header.lowerName == "connection" || header.lowerName == "proxy-connection" {
        continue;
      }
      LineBehind(startLine + CRLF, Text(Kept(h.lines[..i])), header.original);
      result := result + header.original;
      result := result + "\r\n";
    }
    assert h.lines[..|h.lines|] == h.lines;
    HeadWithLast(startLine, Kept(h.lines), ConnectionLine(h.keepAlive));
    ClosingText(h.keepAlive);
    result := result + if h.keepAlive then "Connection: keep-alive\r\n\r\n" else "Connection: close\r\n\r\n";
  }

  lemma NothingKept(lines: seq<HeaderLine>, front: string)
    ensures front + Text(Kept(lines[..0])) == front
  {
  }

  lemma EmptyBehind(s: string)
    ensures s + "" == s
  {
  }

  lemma LineBehind(front: string, text: string, line: string)
    ensures front + text + line + CRLF == front + (text + (line + CRLF))
  {
  }

  lemma KeptStep(lines: seq<HeaderLine>, i: nat)
    requires i < |lines|
    ensures Text(Kept(lines[..i + 1])) ==
      Text(Kept(lines[..i])) + if IsConnection(lines[i].lowerName) then "" else lines[i].original + CRLF
  {
    assert lines[..i + 1] == lines[..i] + [lines[i]];
    KeptAppend(lines[..i], [lines[i]]);
    TextAppend(Kept(lines[..i]), Kept([lines[i]]));
    KeptOne(lines[i]);
  }

  lemma KeptOne(line: HeaderLine)
    ensures Text(Kept([line])) == if IsConnection(line.lowerName) then "" else line.original + CRLF
  {
    assert Kept([line]) == if IsConnection(line.lowerName) then [] else [line.original];
  }

  lemma HeadWithLast(startLine: string, lines: seq<string>, last: string)
    ensures Head(startLine, lines + [last]) == startLine + CRLF + Text(lines) + (last + CRLF + CRLF)
  {
    TextAppend(lines, [last]);
    assert Text([last]) == last + CRLF;
  }

  lemma ClosingText(keepAlive: bool)
    ensures ConnectionLine(keepAlive) + CRLF + CRLF ==
      if keepAlive then "Connection: keep-alive\r\n\r\n" else "Connection: close\r\n\r\n"
  {
  }

  // ---------- Start lines ----------

  datatype RequestLine = RequestLine(httpMethod: string, path: string, version: string)

  /** Three parts with one space between them, a known method, an absolute path and HTTP/1.1. */
  function ReadRequestLine(line: string): Result<RequestLine, HttpParseError> {
    match FindChar(line, ' ', 0)
    case None => Failure(BadSyntax)
    case Some(first) =>
      match FindChar(line, ' ', first + 1)
      case None => Failure(BadSyntax)
      case Some(second) =>
        if FindChar(line, ' ', second + 1).Some? then Failure(BadSyntax)
        else
          var r := RequestLine(line[..first], line[first + 1..second], line[second + 1..]);
          if r.httpMethod != "GET" && r.httpMethod != "POST" then Failure(UnsupportedMethod)
          else if r.path == "" || r.path[0] != '/' || r.version != "HTTP/1.1" then Failure(BadSyntax)
          else Success(r)
  }

  /** HTTP/1.1 and a three-digit status from 100 to 599; what follows is not inspected. */
  function ReadStatusLine(line: string): Result<nat, HttpParseError> {
    match FindChar(line, ' ', 0)
    case None => Failure(BadSyntax)
    case Some(first) =>
      var end := match FindChar(line, ' ', first + 1) case None => |line| case Some(second) => second;
      var token := line[first + 1..end];
      if line[..first] != "HTTP/1.1" || |token| != 3 || !AllDigits(token) then Failure(BadSyntax)
      else if 100 <= Decimal(token) <= 599 then Success(Decimal(token)) else Failure(BadSyntax)
  }

  predicate StatusHasNoBody(statusCode: nat) {
    100 <= statusCode < 200 || statusCode == 204 || statusCode == 304
  }

  // ---------- Whole heads ----------

  function RequestOf(startLine: string, lines: seq<string>, limits: HttpLimits): Result<RequestHead, HttpParseError> {
    match ReadRequestLine(startLine)
    case Failure(e) => Failure(e)
    case Success(r) =>
      match AddLines(NO_HEADERS, lines, limits)
      case Failure(e) => Failure(e)
      case Success(h) =>
        if r.httpMethod == "POST" && h.contentLength.None? then Failure(UnsupportedFraming)
        else Success(RequestHead(r.httpMethod, r.path, r.version, ForwardHead(startLine, h),
                                 if h.contentLength.Some? then h.contentLength.value else 0, h.keepAlive))
  }

  function ResponseOf(startLine: string, lines: seq<string>, limits: HttpLimits): Result<ResponseHead, HttpParseError> {
    match ReadStatusLine(startLine)
    case Failure(e) => Failure(e)
    case Success(status) =>
      match AddLines(NO_HEADERS, lines, limits)
      case Failure(e) => Failure(e)
      case Success(h) =>
        var length := if h.contentLength.Some? then h.contentLength.value else 0;
        if StatusHasNoBody(status) && length != 0 then Failure(UnsupportedFraming)
        else if !StatusHasNoBody(status) && h.contentLength.None? then Failure(UnsupportedFraming)
        else Success(ResponseHead(status, "HTTP/1.1", ForwardHead(startLine, h), length, h.keepAlive))
  }

  /** The head at the front of the received bytes, as far as its size goes. */
  datatype Block = Missing | TooLong | Found(startLine: string, lines: seq<string>, headerBytes: nat)

  function FindBlock(bytes: string, limits: HttpLimits): Block {
    match FindBlank(bytes, 0)
    case None => if |bytes| >= limits.maxHeaderBytes then TooLong else Missing
    case Some(end) =>
      if end + 4 > limits.maxHeaderBytes then TooLong
      else
        var block := bytes[..end + 4];
        match FindCrlf(block, 0)
        case None => Found("", [], end + 4)
        case Some(e) => Found(block[..e], LinesOf(block[e + 2..]), end + 4)
  }

  function ParseRequest(bytes: string, limits: HttpLimits): ParseResult<RequestHead> {
    match FindBlock(bytes, limits)
    case Missing => NeedMore
    case TooLong => Malformed(HeaderTooLarge)
    case Found(startLine, lines, headerBytes) =>
      match RequestOf(startLine, lines, limits)
      case Failure(e) => Malformed(e)
      case Success(head) => Complete(head, headerBytes)
  }

  function ParseResponse(bytes: string, limits: HttpLimits): ParseResult<ResponseHead> {
    match FindBlock(bytes, limits)
    case Missing => NeedMore
    case TooLong => Malformed(HeaderTooLarge)
    case Found(startLine, lines, headerBytes) =>
      match ResponseOf(startLine, lines, limits)
      case Failure(e) => Malformed(e)
      case Success(head) => Complete(head, headerBytes)
  }

  // ---------- The parser over the receive buffer ----------

  /** Ends with its only empty line. */
  ghost predicate IsBlock(block: string) {
    |block| >= 4 && BlankAt(block, |block| - 4) && FindCrlf(block, 0).Some?
  }

  ghost function StartOf(block: string): string
    requires IsBlock(block)
  {
    block[..FindCrlf(block, 0).value]
  }

  ghost function LinesIn(block: string): seq<string>
    requires IsBlock(block)
  {
    LinesOf(block[FindCrlf(block, 0).value + 2..])
  }

  method ParseRequestLine(startLine: string) returns (r: Result<RequestLine, HttpParseError>)
    ensures r == ReadRequestLine(startLine)
  {
    var firstSpace := FindChar(startLine, ' ', 0);
    var secondSpace := if firstSpace.None? then None else FindChar(startLine, ' ', firstSpace.value + 1);
    if firstSpace.None? || secondSpace.None? || FindChar(startLine, ' ', secondSpace.value + 1).Some? {
      return Failure(BadSyntax);
    }
    var httpMethod := startLine[..firstSpace.value];
    var path := startLine[firstSpace.value + 1..secondSpace.value];
    var version := startLine[secondSpace.value + 1..];
    if httpMethod != "GET" && httpMethod != "POST" {
      return Failure(UnsupportedMethod);
    }
    if path == "" || path[0] != '/' || version != "HTTP/1.1" {
      return Failure(BadSyntax);
    }
    return Success(RequestLine(httpMethod, path, version));
  }

  method ParseRequestBlock(block: string, limits: HttpLimits) returns (r: Result<RequestHead, HttpParseError>)
    requires IsBlock(block)
    ensures r == RequestOf(StartOf(block), LinesIn(block), limits)
  {
    var firstLineEnd := FindCrlf(block, 0).value;
    if firstLineEnd == 0 {
      return Failure(BadSyntax);
    }
    var startLine := block[..firstLineEnd];
    var line := ParseRequestLine(startLine);
    if line.Failure? {
      return Failure(line.error);
    }
    var headers := ParseHeaderLines(block, firstLineEnd, limits);
    if headers.Failure? {
      return Failure(headers.error);
    }
    var h := headers.value;
    if line.value.httpMethod == "POST" && h.contentLength.None? {
      return Failure(UnsupportedFraming);
    }
    var forwardHead := BuildForwardHead(startLine, h);
    var contentLength := if h.contentLength.Some? then h.contentLength.value else 0;
    return Success(RequestHead(line.value.httpMethod, line.value.path, line.value.version, forwardHead,
                               contentLength, h.keepAlive));
  }

  method ParseStatus(statusToken: string) returns (statusCode: Option<nat>)
    requires |statusToken| == 3
    ensures statusCode == if AllDigits(statusToken) then Some(Decimal(statusToken)) else None
  {
    var code := 0;
    for i := 0 to |statusToken|
      invariant AllDigits(statusToken[..i]) && code == Decimal(statusToken[..i])
    {
      var c := statusToken[i];
      if c < '0' || c > '9' {
        return None;
      }
      assert statusToken[..i + 1][..i] == statusToken[..i];
      code := code * 10 + Digit(c);
    }
    assert statusToken[..|statusToken|] == statusToken;
    return Some(code);
  }

  method ParseResponseBlock(block: string, limits: HttpLimits) returns (r: Result<ResponseHead, HttpParseError>)
    requires IsBlock(block)
    ensures r == ResponseOf(StartOf(block), LinesIn(block), limits)
  {
    var firstLineEnd := FindCrlf(block, 0).value;
    if firstLineEnd == 0 {
      return Failure(BadSyntax);
    }
    var startLine := block[..firstLineEnd];
    var status := ParseStatusLine(startLine);
    if status.Failure? {
      return Failure(status.error);
    }
    var headers := ParseHeaderLines(block, firstLineEnd, limits);
    if headers.Failure? {
      return Failure(headers.error);
    }
    var h := headers.value;
    var noBody := StatusHasNoBody(status.value);
    var length := if h.contentLength.Some? then h.contentLength.value else 0;
    if noBody {
      if length != 0 {
        return Failure(UnsupportedFraming);
      }
    } else if h.contentLength.None? {
      return Failure(UnsupportedFraming);
    }
    var forwardHead := BuildForwardHead(startLine, h);
    var contentLength := if noBody then 0 else length;
    return Success(ResponseHead(status.value, "HTTP/1.1", forwardHead, contentLength, h.keepAlive));
  }

  method ParseStatusLine(startLine: string) returns (r: Result<nat, HttpParseError>)
    ensures r == ReadStatusLine(startLine)
  {
    var firstSpace := FindChar(startLine, ' ', 0);
    var secondSpace := if firstSpace.None? then None else FindChar(startLine, ' ', firstSpace.value + 1);
    var version := if firstSpace.None? then "" else startLine[..firstSpace.value];
    var statusToken := if firstSpace.None? then ""
      else startLine[firstSpace.value + 1..if secondSpace.None? then |startLine| else secondSpace.value];
    if version != "HTTP/1.1" || |statusToken| != 3 {
      return Failure(BadSyntax);
    }
    var statusCode := ParseStatus(statusToken);
    if statusCode.None? || statusCode.value < 100 || statusCode.value > 599 {
      return Failure(BadSyntax);
    }
    return Success(statusCode.value);
  }

  /** Looks for a complete head at the front of the received bytes. */
  method FindHeaderBlock(bytes: string, limits: HttpLimits) returns (r: Result<Option<string>, HttpParseError>)
    ensures match r
            case Failure(e) => e == HeaderTooLarge && FindBlock(bytes, limits) == TooLong
            case Success(None) => FindBlock(bytes, limits) == Missing
            case Success(Some(block)) =>
              && block <= bytes && IsBlock(block)
              && FindBlock(bytes, limits) == Found(StartOf(block), LinesIn(block), |block|)
  {
    var end := FindBlank(bytes, 0);
    if end.None? {
      if |bytes| >= limits.maxHeaderBytes {
        return Failure(HeaderTooLarge);
      }
      return Success(None);
    }
    var headerBytes := end.value + 4;
    if headerBytes > limits.maxHeaderBytes {
      return Failure(HeaderTooLarge);
    }
    assert CrlfAt(bytes[..headerBytes], end.value);
    return Success(Some(bytes[..headerBytes]));
  }

  /** Parses the head of a request and takes it off the buffer; otherwise the buffer stays. */
  method ParseRequestHead(input: Buffer<char>, limits: HttpLimits) returns (result: ParseResult<RequestHead>)
    requires input.Valid()
    modifies input`readIndex
    ensures input.Valid() && result == ParseRequest(old(input.Contents()), limits)
    ensures result.Complete? ==> result.headerBytes <= |old(input.Contents())|
    ensures result.Complete? ==> input.Contents() == old(input.Contents())[result.headerBytes..]
    ensures !result.Complete? ==> unchanged(input)
  {
    var bytes := input.Readable();
    var block := FindHeaderBlock(bytes, limits);
    if block.Failure? {
      return Malformed(block.error);
    }
    if block.value.None? {
      return NeedMore;
    }
    var request := ParseRequestBlock(block.value.value, limits);
    if request.Failure? {
      return Malformed(request.error);
    }
    input.Retrieve(|block.value.value|);
    return Complete(request.value, |block.value.value|);
  }

  method ParseResponseHead(input: Buffer<char>, limits: HttpLimits) returns (result: ParseResult<ResponseHead>)
    requires input.Valid()
    modifies input`readIndex
    ensures input.Valid() && result == ParseResponse(old(input.Contents()), limits)
    ensures result.Complete? ==> result.headerBytes <= |old(input.Contents())|
    ensures result.Complete? ==> input.Contents() == old(input.Contents())[result.headerBytes..]
    ensures !result.Complete? ==> unchanged(input)
  {
    var bytes := input.Readable();
    var block := FindHeaderBlock(bytes, limits);
    if block.Failure? {
      return Malformed(block.error);
    }
    if block.value.None? {
      return NeedMore;
    }
    var response := ParseResponseBlock(block.value.value, limits);
    if response.Failure? {
      return Malformed(response.error);
    }
    input.Retrieve(|block.value.value|);
    return Complete(response.value, |block.value.value|);
  }
}
