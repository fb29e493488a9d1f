/** The messages a session sends to its client: relayed responses and its own error responses. */
module ProxyResponses {
  import opened BodyPump
  import opened HttpFields
  import opened HttpForwarding
  import opened HttpFramer
  import opened HttpSyntax
  import opened IoOperation
  import opened Wrappers

  // ---------- Error responses ----------

  function RequestErrorStatus(error: Error): nat {
    if error.code != Protocol then 400
    else if error.systemError == ErrorNumber(HeaderTooLarge) then 431
    else if error.systemError == ErrorNumber(BodyTooLarge) then 413
    else 400
  }

  /** The status of each error that a request can have. */
  lemma RequestErrorStatuses(error: HttpParseError, e: Error)
    ensures RequestErrorStatus(ParserError(error)) ==
      if error == HeaderTooLarge then 431 else if error == BodyTooLarge then 413 else 400
    ensures e.code != Protocol ==> RequestErrorStatus(e) == 400
  {
  }

  function ReasonForStatus(status: nat): string {
    match status
    case 400 => "Bad Request"
    case 404 => "Not Found"
    case 413 => "Payload Too Large"
    case 431 => "Request Header Fields Too Large"
    case 502 => "Bad Gateway"
    case 503 => "Service Unavailable"
    case 504 => "Gateway Timeout"
    case _ => "Proxy Error"
  }

  /** The statuses the session answers with itself. */
  const OWN_STATUSES: set<nat> := {400, 404, 413, 431, 502, 503, 504}

  function StatusDigits(status: nat): string
    requires 100 <= status < 1000
  {
    [DigitChar(status / 100), DigitChar(status / 10 % 10), DigitChar(status % 10)]
  }

  function DigitChar(d: nat): char
    requires d < 10
  {
    '0' + d as char
  }

  function ErrorResponse(status: nat): string
    requires status in OWN_STATUSES
  {
    "HTTP/1.1 " + StatusDigits(status) + " " + ReasonForStatus(status)
      + "\r\n" + "Content-Length: 0\r\n" + "Connection: close\r\n\r\n"
  }

  // ---------- Responses on the wire ----------

  /** A message that frames as one response and nothing more, and says whether the connection lives on. */
  ghost predicate OneResponse(message: string, keepAlive: bool, limits: HttpLimits) {
    var p := ParseResponse(message, HttpLimits(|message|, limits.maxBodyBytes));
    p.Complete? && |message| == p.headerBytes + p.head.contentLength && p.head.keepAlive == keepAlive
  }

  /** A front part of one response. */
  ghost predicate PartOfResponse(part: string, limits: HttpLimits) {
    exists message, keepAlive :: OneResponse(message, keepAlive, limits) && part <= message
  }

  /** A forwarded head and as many bytes as it announces are one response. */
  lemma RelayedIsOneResponse(bytes: string, limits: HttpLimits, keepAlive: bool, body: string)
    requires ParseResponse(bytes, limits).Complete? && |body| == ParseResponse(bytes, limits).head.contentLength
    ensures OneResponse(NormalizeConnection(ParseResponse(bytes, limits).head.forwardHead, keepAlive) + body,
                        keepAlive, limits)
  {
    var forward := NormalizeConnection(ParseResponse(bytes, limits).head.forwardHead, keepAlive);
    ResponseFixpoint(bytes, limits, keepAlive, body, HttpLimits(|forward + body|, limits.maxBodyBytes));
  }

  /** Any front part of a relayed response, cut in the head or in the body, is part of one response. */
  lemma CutResponse(bytes: string, limits: HttpLimits, keepAlive: bool, body: string, part: string)
    requires ParseResponse(bytes, limits).Complete? && |body| <= ParseResponse(bytes, limits).head.contentLength
    requires part <= NormalizeConnection(ParseResponse(bytes, limits).head.forwardHead, keepAlive) + body
    ensures PartOfResponse(part, limits)
  {
    hide ParseResponse, NormalizeConnection;
    var head := ParseResponse(bytes, limits).head;
    var forward := NormalizeConnection(head.forwardHead, keepAlive);
    var missing := seq(head.contentLength - |body|, _ => ' ');
    RelayedIsOneResponse(bytes, limits, keepAlive, body + missing);
    assert forward + (body + missing) == (forward + body) + missing;
    assert OneResponse(forward + (body + missing), keepAlive, limits) && part <= forward + (body + missing);
  }

  // ---------- The session's own responses ----------

  const ZERO_LENGTH: string := "Content-Length: 0"

  const ZERO_HEADER: HeaderLine := HeaderLine("content-length", "0", ZERO_LENGTH)

  lemma ZeroLengthReads()
    ensures ReadLine(ZERO_LENGTH) == Success(ZERO_HEADER)
  {
    assert ZERO_LENGTH == "Content-Length" + ":" + (" " + "0");
    assert Lower("Content-Length") == "content-length";
    PlainLineReads("Content-Length", "0", ZERO_LENGTH);
  }

  lemma ZeroLengthIsLine()
    ensures AreLines([ZERO_LENGTH])
  {
    assert forall k :: 0 <= k < |ZERO_LENGTH| ==> ZERO_LENGTH[k] != '\r';
  }

  lemma ZeroIsZero()
    ensures Length("0") == Some(0)
  {
    TrimmedValue("0");
    assert Decimal("0") == 10 * Decimal("") + 0;
  }

  lemma ZeroLengthAdds(limits: HttpLimits)
    ensures AddLines(NO_HEADERS, [ZERO_LENGTH], limits) == Success(ParsedHeaders([ZERO_HEADER], Some(0), true))
  {
    var h := ParsedHeaders([ZERO_HEADER], Some(0), true);
    assert AddHeader(NO_HEADERS, ZERO_HEADER, limits) == Success(h) by {
      ZeroIsZero();
      assert NO_HEADERS.lines + [ZERO_HEADER] == [ZERO_HEADER];
      assert ZERO_HEADER.lowerName != "transfer-encoding" && ZERO_HEADER.lowerName != "upgrade";
    }
    ZeroLengthReads();
    assert AddLines(h, [], limits) == Success(h);
    assert [ZERO_LENGTH][1..] == [];
  }

  function OwnStartLine(status: nat): string
    requires status in OWN_STATUSES
  {
    "HTTP/1.1 " + StatusDigits(status) + " " + ReasonForStatus(status)
  }

  lemma FirstAfter(front: string, c: char, rest: string, start: nat)
    requires start <= |front| && forall k :: start <= k < |front| ==> front[k] != c
    ensures FindChar(front + ([c] + rest), c, start) == Some(|front|)
  {
    var s := front + ([c] + rest);
    assert s[|front|] == c && forall k :: start <= k < |front| ==> s[k] == front[k];
  }

  lemma StatusLineReads(version: string, digits: string, reason: string)
    requires version == "HTTP/1.1" && |digits| == 3 && AllDigits(digits) && 100 <= Decimal(digits) <= 599
    ensures ReadStatusLine(version + " " + digits + " " + reason) == Success(Decimal(digits))
  {
    var line := version + " " + digits + " " + reason;
    var front := version + " " + digits;
    assert line == version + ([' '] + (digits + " " + reason));
    assert forall k :: 0 <= k < |version| ==> version[k] != ' ';
    FirstAfter(version, ' ', digits + " " + reason, 0);
    assert line == front + ([' '] + reason);
    assert forall k :: 9 <= k < |front| ==> front[k] == digits[k - 9];
    FirstAfter(front, ' ', reason, 9);
    assert line[..8] == version && line[9..12] == digits;
  }

  ghost predicate Plain(s: string) {
    forall k :: 0 <= k < |s| ==> s[k] != '\r'
  }

  lemma ReasonIsPlain(status: nat)
    ensures Plain(ReasonForStatus(status))
  {
    match status
    case 400 => assert Plain("Bad Request");
    case 404 => assert Plain("Not Found");
    case 413 => assert Plain("Payload Too Large");
    case 431 => assert Plain("Request Header Fields Too Large");
    case 502 => assert Plain("Bad Gateway");
    case 503 => assert Plain("Service Unavailable");
    case 504 => assert Plain("Gateway Timeout");
    case _ => assert Plain("Proxy Error");
  }

  lemma OwnStatusLine(status: nat)
    requires status in OWN_STATUSES
    ensures ReadStatusLine(OwnStartLine(status)) == Success(status) && IsLine(OwnStartLine(status))
  {
    var digits, reason, version := StatusDigits(status), ReasonForStatus(status), "HTTP/1.1";
    DigitsOfStatus(status);
    var line := version + " " + digits + " " + reason;
    assert "HTTP/1.1 " == version + " ";
    assert OwnStartLine(status) == line;
    StatusLineReads(version, digits, reason);
    ReasonIsPlain(status);
    assert forall k :: 0 <= k < |line| ==> line[k] != '\r';
  }

  lemma DigitsOfStatus(status: nat)
    requires 100 <= status < 1000
    ensures AllDigits(StatusDigits(status)) && Decimal(StatusDigits(status)) == status
  {
    var a, b, c := status / 100, status / 10 % 10, status % 10;
    ThreeDigits(DigitChar(a), DigitChar(b), DigitChar(c));
    assert status == 100 * a + 10 * b + c;
  }

  lemma ThreeDigits(x: char, y: char, z: char)
    requires IsDigit(x) && IsDigit(y) && IsDigit(z)
    ensures AllDigits([x, y, z]) && Decimal([x, y, z]) == 100 * Digit(x) + 10 * Digit(y) + Digit(z)
  {
    var d := [x, y, z];
    assert d[..2] == [x, y] && [x, y][..1] == [x] && [x][..0] == "";
    assert Decimal([x]) == 10 * Decimal("") + Digit(x);
    assert Decimal([x, y]) == 10 * Decimal([x]) + Digit(y);
  }

  /** Every error response of the session is one response without a body that announces the close. */
  lemma ErrorIsOneResponse(status: nat, limits: HttpLimits)
    requires status in OWN_STATUSES
    ensures OneResponse(ErrorResponse(status), false, limits)
    ensures var message := ErrorResponse(status);
      var p := ParseResponse(message, HttpLimits(|message|, limits.maxBodyBytes));
      p.Complete? && p.head.statusCode == status && p.head.contentLength == 0 && !p.head.keepAlive
  {
    var startLine, message := OwnStartLine(status), ErrorResponse(status);
    var wide := HttpLimits(|message|, limits.maxBodyBytes);
    var h := ParsedHeaders([ZERO_HEADER], Some(0), true);
    OwnStatusLine(status);
    ZeroLengthAdds(wide);
    ZeroLengthIsLine();
    assert Kept(h.lines) == [ZERO_LENGTH];
    ErrorText(status);
    ForwardIsFound(startLine, [ZERO_LENGTH], h, false, "", wide, wide);
    ResponseReadBack(startLine, [ZERO_LENGTH], h, false, wide, wide);
    assert message + "" == message;
  }

  lemma ErrorPart(status: nat, reply: string, limits: HttpLimits)
    requires status in OWN_STATUSES && reply <= ErrorResponse(status)
    ensures PartOfResponse(reply, limits)
  {
    hide OneResponse, ErrorResponse;
    ErrorIsOneResponse(status, limits);
  }

  lemma ErrorText(status: nat)
    requires status in OWN_STATUSES
    ensures ErrorResponse(status) == Head(OwnStartLine(status), [ZERO_LENGTH] + [ConnectionLine(false)])
  {
    hide ReasonForStatus, StatusDigits, ConnectionLine;
    var line := OwnStartLine(status);
    HeadWithLast(line, [ZERO_LENGTH], ConnectionLine(false));
    ClosingText(false);
    ZeroLengthText();
  }

  lemma ZeroLengthText()
    ensures Text([ZERO_LENGTH]) == ZERO_LENGTH + CRLF && "Content-Length: 0\r\n" == ZERO_LENGTH + CRLF
  {
    assert Text([ZERO_LENGTH]) == ZERO_LENGTH + CRLF + Text([]);
  }
}
