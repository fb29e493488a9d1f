/** The length-prefixed message codec: a header of sixteen bytes (payload length, type and id, each
in network byte order) followed by the payload. */
module RpcCodec {
  import opened Buffer
  import opened Sequences

  const MAX_MESSAGE_LENGTH: nat := 64 * 1024 * 1024
  const HEADER_LENGTH: nat := 4 + 4 + 8
  const TWO_32: nat := 0x1_0000_0000
  const TWO_64: nat := 0x1_0000_0000_0000_0000

  type Octet = c: char | c as int < 256 witness '\0'
  type Int32 = x: int | -0x8000_0000 <= x < 0x8000_0000
  type UInt64 = x: int | 0 <= x < 0x1_0000_0000_0000_0000

  datatype RpcMessage = RpcMessage(messageType: Int32, id: UInt64, payload: seq<Octet>)

  datatype DecodeResult = Complete | Incomplete | Error

  /** What a decoding attempt finds at the front of a byte sequence. */
  datatype Parsed = Parsed(message: RpcMessage, rest: seq<Octet>) | NeedMore | TooLarge

  // ---------- Network byte order ----------

  function BigEndian(n: nat, width: nat): (s: seq<Octet>)
    ensures |s| == width
  {
    if width == 0 then [] else BigEndian(n / 256, width - 1) + [(n % 256) as char]
  }

  function Value(s: seq<Octet>): nat {
    if s == [] then 0 else 256 * Value(s[..|s| - 1]) + s[|s| - 1] as int
  }

  function Power256(width: nat): nat {
    if width == 0 then 1 else 256 * Power256(width - 1)
  }

  lemma {:induction false} ValueOfBigEndian(n: nat, width: nat)
    requires n < Power256(width)
    ensures Value(BigEndian(n, width)) == n
  {
    if width > 0 {
      ValueOfBigEndian(n / 256, width - 1);
      assert BigEndian(n, width)[..width - 1] == BigEndian(n / 256, width - 1);
    }
  }

  lemma {:induction false} BigEndianOfValue(s: seq<Octet>)
    ensures Value(s) < Power256(|s|) && BigEndian(Value(s), |s|) == s
  {
    if s != [] {
      var front := s[..|s| - 1];
      BigEndianOfValue(front);
      assert Value(s) / 256 == Value(front) && Value(s) % 256 == s[|s| - 1] as int;
      assert s == front + [s[|s| - 1]];
    }
  }

  lemma Widths()
    ensures Power256(4) == TWO_32 && Power256(8) == TWO_64
  {
    assert Power256(2) == 0x1_0000;
    assert Power256(4) == 256 * 256 * Power256(2);
    assert Power256(6) == 256 * 256 * Power256(4);
    assert Power256(8) == 256 * 256 * Power256(6);
  }

  // ---------- Frames ----------

  function ToUnsigned(x: Int32): nat {
    if x < 0 then x + TWO_32 else x
  }

  function ToSigned(x: nat): Int32
    requires x < TWO_32
  {
    if x >= 0x8000_0000 then x - TWO_32 else x
  }

  /** The header holds the payload length in 32 bits. */
  function BodyLength(m: RpcMessage): nat {
    |m.payload| % TWO_32
  }

  function Header(m: RpcMessage): (s: seq<Octet>)
    ensures |s| == HEADER_LENGTH
  {
    BigEndian(BodyLength(m), 4) + BigEndian(ToUnsigned(m.messageType), 4) + BigEndian(m.id, 8)
  }

  function Frame(m: RpcMessage): seq<Octet> {
    Header(m) + m.payload[..BodyLength(m)]
  }

  predicate Sendable(m: RpcMessage) {
    |m.payload| <= MAX_MESSAGE_LENGTH
  }

  function Parse(s: seq<Octet>): Parsed {
    if |s| < HEADER_LENGTH then NeedMore
    else
      var bodyLen := Value(s[0..4]);
      if bodyLen > MAX_MESSAGE_LENGTH then TooLarge
      else if |s| < HEADER_LENGTH + bodyLen then NeedMore
      else Parsed(ParsedMessage(s, bodyLen), s[HEADER_LENGTH + bodyLen..])
  }

  function ParsedMessage(s: seq<Octet>, bodyLen: nat): RpcMessage
    requires |s| >= HEADER_LENGTH + bodyLen
  {
    BigEndianOfValue(s[4..8]);
    BigEndianOfValue(s[8..16]);
    Widths();
    RpcMessage(ToSigned(Value(s[4..8])), Value(s[8..16]), s[HEADER_LENGTH..HEADER_LENGTH + bodyLen])
  }

  lemma LastByte(n: nat, width: nat)
    requires width > 0
    ensures BigEndian(n, width)[width - 1] as int == n % 0x100
    ensures BigEndian(n, width)[..width - 1] == BigEndian(n / 0x100, width - 1)
  {
  }

  lemma Quotients(n: nat)
    ensures n / 0x100 / 0x100 == n / 0x1_0000 && n / 0x1_0000 / 0x100 == n / 0x100_0000
  {
  }

  lemma FourBytes(n: nat)
    requires n < TWO_32
    ensures var s := BigEndian(n, 4);
      && s[0] as int == n / 0x100_0000 && s[1] as int == n / 0x1_0000 % 0x100
      && s[2] as int == n / 0x100 % 0x100 && s[3] as int == n % 0x100
  {
    hide BigEndian;
    Quotients(n);
    var s := BigEndian(n, 4);
    LastByte(n, 4);
    LastByte(n / 0x100, 3);
    LastByte(n / 0x1_0000, 2);
    LastByte(n / 0x100_0000, 1);
    assert s[2] == s[..3][2] && s[1] == s[..3][..2][1] && s[0] == s[..3][..2][..1][0];
  }

  lemma {:induction false} ValueAppend(a: seq<Octet>, b: seq<Octet>)
    ensures Value(a + b) == Value(a) * Power256(|b|) + Value(b)
  {
    if b == [] {
      assert a + b == a;
    } else {
      var front, last := b[..|b| - 1], b[|b| - 1];
      ValueAppend(a, front);
      assert (a + b)[..|a + b| - 1] == a + front && (a + b)[|a + b| - 1] == last;
      Distribute(Value(a), Power256(|front|), Value(front));
    }
  }

  lemma Distribute(x: nat, p: nat, y: nat)
    ensures 256 * (x * p + y) == x * (256 * p) + 256 * y
  {
  }

  /** Eight bytes are the four of the upper half and the four of the lower half. */
  lemma EightBytes(n: nat)
    requires n < TWO_64
    ensures BigEndian(n, 8) == BigEndian(n / TWO_32, 4) + BigEndian(n % TWO_32, 4)
  {
    hide BigEndian, Value;
    var high, low := BigEndian(n / TWO_32, 4), BigEndian(n % TWO_32, 4);
    Widths();
    ValueOfBigEndian(n / TWO_32, 4);
    ValueOfBigEndian(n % TWO_32, 4);
    ValueAppend(high, low);
    BigEndianOfValue(high + low);
  }

  /** Four bytes hold this number with the most significant byte first. */
  ghost predicate Holds(f: seq<Octet>, at: nat, n: nat) {
    && at + 4 <= |f|
    && f[at] as int == n / 0x100_0000 % 0x100 && f[at + 1] as int == n / 0x1_0000 % 0x100
    && f[at + 2] as int == n / 0x100 % 0x100 && f[at + 3] as int == n % 0x100
  }

  lemma PartHolds(f: seq<Octet>, front: seq<Octet>, n: nat, back: seq<Octet>)
    requires n < TWO_32 && f == front + BigEndian(n, 4) + back
    ensures Holds(f, |front|, n)
  {
    hide BigEndian;
    var part := BigEndian(n, 4);
    FourBytes(n);
    assert forall k :: 0 <= k < 4 ==> f[|front| + k] == part[k];
  }

  /** The bytes on the wire: length, type and id, each with its most significant byte first, then the payload. A
  negative type is sent as its two's complement. */
  lemma FrameBytes(m: RpcMessage)
    ensures var f, n := Frame(m), |m.payload| % 0x1_0000_0000;
      && |f| == 16 + n && f[16..] == m.payload[..n]
      && Holds(f, 0, n) && Holds(f, 4, if m.messageType < 0 then m.messageType + 0x1_0000_0000 else m.messageType)
      && Holds(f, 8, m.id / 0x1_0000_0000) && Holds(f, 12, m.id % 0x1_0000_0000)
  {
    hide BigEndian, Holds;
    var length, kind := BigEndian(BodyLength(m), 4), BigEndian(ToUnsigned(m.messageType), 4);
    var high, low := BigEndian(m.id / TWO_32, 4), BigEndian(m.id % TWO_32, 4);
    var f, payload := Frame(m), m.payload[..BodyLength(m)];
    EightBytes(m.id);
    assert f == [] + length + (kind + high + low + payload);
    PartHolds(f, [], BodyLength(m), kind + high + low + payload);
    assert f == length + kind + (high + low + payload);
    PartHolds(f, length, ToUnsigned(m.messageType), high + low + payload);
    assert f == length + kind + high + (low + payload);
    PartHolds(f, length + kind, m.id / TWO_32, low + payload);
    assert f == length + kind + high + low + payload;
    PartHolds(f, length + kind + high, m.id % TWO_32, payload);
  }

  /** Reading the header of a frame. */
  lemma HeaderFields(m: RpcMessage, s: seq<Octet>)
    requires |s| >= HEADER_LENGTH && s[..HEADER_LENGTH] == Header(m)
    ensures Value(s[0..4]) == BodyLength(m)
    ensures Value(s[4..8]) == ToUnsigned(m.messageType) && Value(s[8..16]) == m.id
  {
    Widths();
    ValueOfBigEndian(BodyLength(m), 4);
    ValueOfBigEndian(ToUnsigned(m.messageType), 4);
    ValueOfBigEndian(m.id, 8);
    var h := s[..HEADER_LENGTH];
    assert s[0..4] == h[0..4] == BigEndian(BodyLength(m), 4);
    assert s[4..8] == h[4..8] == BigEndian(ToUnsigned(m.messageType), 4);
    assert s[8..16] == h[8..16] == BigEndian(m.id, 8);
  }

  /** A complete frame is found exactly where the encoding of a sendable message stands. */
  lemma ParsedExactlyFrames(s: seq<Octet>, m: RpcMessage, rest: seq<Octet>)
    ensures Parse(s) == Parsed(m, rest) <==> Sendable(m) && s == Frame(m) + rest
  {
    if Sendable(m) && s == Frame(m) + rest {
      FrameParses(s, m, rest);
    }
    if Parse(s) == Parsed(m, rest) {
      ParsedIsFrame(s, m, rest);
    }
  }

  lemma FrameParses(s: seq<Octet>, m: RpcMessage, rest: seq<Octet>)
    requires Sendable(m) && s == Frame(m) + rest
    ensures Parse(s) == Parsed(m, rest)
  {
    hide Value, Header;
    assert m.payload[..BodyLength(m)] == m.payload;
    PartsOf(Header(m), m.payload, rest);
    HeaderFields(m, s);
  }

  lemma ParsedIsFrame(s: seq<Octet>, m: RpcMessage, rest: seq<Octet>)
    requires Parse(s) == Parsed(m, rest)
    ensures Sendable(m) && s == Frame(m) + rest
  {
    hide Value, ParsedMessage, Header;
    var bodyLen := Value(s[0..4]);
    HeaderOfParsed(s, bodyLen);
    assert m.payload == s[HEADER_LENGTH..HEADER_LENGTH + bodyLen] by {
      PayloadOfParsed(s, bodyLen);
    }
    assert m.payload[..BodyLength(m)] == m.payload;
    ThreeParts(s, HEADER_LENGTH, HEADER_LENGTH + bodyLen);
  }

  lemma PayloadOfParsed(s: seq<Octet>, bodyLen: nat)
    requires |s| >= HEADER_LENGTH + bodyLen
    ensures ParsedMessage(s, bodyLen).payload == s[HEADER_LENGTH..HEADER_LENGTH + bodyLen]
  {
  }

  lemma HeaderOfParsed(s: seq<Octet>, bodyLen: nat)
    requires |s| >= HEADER_LENGTH + bodyLen && bodyLen == Value(s[0..4])
    ensures bodyLen < TWO_32 && Header(ParsedMessage(s, bodyLen)) == s[..16]
  {
    hide BigEndian, Value, Power256;
    Widths();
    BigEndianOfValue(s[0..4]);
    BigEndianOfValue(s[4..8]);
    BigEndianOfValue(s[8..16]);
    assert s[..16] == s[0..4] + s[4..8] + s[8..16];
  }

  /** Decoding an encoded message gives it back exactly when its payload is at most 64 MiB. */
  lemma RoundTripExactlyWhen(m: RpcMessage, rest: seq<Octet>)
    ensures Parse(Frame(m) + rest) == Parsed(m, rest) <==> |m.payload| <= 0x400_0000
  {
    ParsedExactlyFrames(Frame(m) + rest, m, rest);
  }

  /** A message is too large exactly when the first four bytes announce more than 64 MiB. */
  lemma TooLargeExactlyWhen(s: seq<Octet>)
    ensures Parse(s) == TooLarge <==>
      |s| >= 16 && 0x100_0000 * s[0] as int + 0x1_0000 * s[1] as int + 0x100 * s[2] as int + s[3] as int > 0x400_0000
  {
    if |s| >= HEADER_LENGTH {
      var b := s[0..4];
      assert b[..3] == [s[0], s[1], s[2]] && b[..3][..2] == [s[0], s[1]] && b[..3][..2][..1] == [s[0]];
      assert Value([s[0]]) == 256 * Value([s[0]][..0]) + s[0] as int;
      assert Value(b[..3][..2]) == 256 * Value([s[0]]) + s[1] as int;
      assert Value(b[..3]) == 256 * Value(b[..3][..2]) + s[2] as int;
    }
  }

  ghost predicate CutFrame(s: seq<Octet>, m: RpcMessage) {
    Sendable(m) && s < Frame(m)
  }

  /** From sixteen bytes on, more are needed exactly while a sendable message has been cut. */
  lemma NeedMoreExactlyWhenCut(s: seq<Octet>)
    ensures Parse(s) == NeedMore <==> |s| < HEADER_LENGTH || exists m :: CutFrame(s, m)
  {
    if |s| >= HEADER_LENGTH && Parse(s) == NeedMore {
      var missing := HEADER_LENGTH + Value(s[0..4]) - |s|;
      var padded := s + seq(missing, _ => '\0');
      assert padded[0..4] == s[0..4];
      var p := Parse(padded);
      ParsedIsFrame(padded, p.message, p.rest);
      assert s < Frame(p.message);
      assert CutFrame(s, p.message);
    }
    if m :| CutFrame(s, m) {
      CutFrameNeedsMore(s, m);
    }
  }

  lemma CutFrameNeedsMore(s: seq<Octet>, m: RpcMessage)
    requires CutFrame(s, m)
    ensures Parse(s) == NeedMore
  {
    if |s| >= HEADER_LENGTH {
      assert s[..HEADER_LENGTH] == Frame(m)[..HEADER_LENGTH] == Header(m);
      HeaderFields(m, s);
    }
  }

  // ---------- Streams of messages ----------

  function Frames(messages: seq<RpcMessage>): seq<Octet> {
    if messages == [] then [] else Frame(messages[0]) + Frames(messages[1..])
  }

  /** All messages that decoding finds, and what it leaves in the buffer. */
  function DecodeAll(s: seq<Octet>): (r: (seq<RpcMessage>, seq<Octet>))
    decreases |s|
  {
    var p := Parse(s);
    if p.Parsed? then
      ParsedIsFrame(s, p.message, p.rest);
      var (messages, rest) := DecodeAll(p.rest);
      ([p.message] + messages, rest)
    else ([], s)
  }

  lemma DecodeFirst(m: RpcMessage, rest: seq<Octet>)
    requires Sendable(m)
    ensures DecodeAll(Frame(m) + rest) == ([m] + DecodeAll(rest).0, DecodeAll(rest).1)
  {
    FrameParses(Frame(m) + rest, m, rest);
  }

  lemma NothingToDecode(tail: seq<Octet>)
    requires tail == [] || exists m :: CutFrame(tail, m)
    ensures DecodeAll(tail) == ([], tail)
  {
    NeedMoreExactlyWhenCut(tail);
  }

  /** Any list of sendable messages, followed by a cut frame or nothing, decodes to itself and leaves
  the cut frame alone. */
  lemma {:induction false} StreamRoundTrip(messages: seq<RpcMessage>, tail: seq<Octet>)
    requires forall m :: m in messages ==> Sendable(m)
    requires tail == [] || exists m :: CutFrame(tail, m)
    ensures DecodeAll(Frames(messages) + tail) == (messages, tail)
    decreases |messages|
  {
    hide DecodeAll, Frame, CutFrame;
    if messages == [] {
      assert Frames(messages) + tail == tail;
      NothingToDecode(tail);
    } else {
      var rest := Frames(messages[1..]) + tail;
      StreamRoundTrip(messages[1..], tail);
      DecodeFirst(messages[0], rest);
      assert Frames(messages) + tail == Frame(messages[0]) + rest;
      assert messages == [messages[0]] + messages[1..];
    }
  }

  /** A verdict other than "incomplete" does not change when more bytes arrive. */
  lemma VerdictIsStable(s: seq<Octet>, more: seq<Octet>)
    ensures Parse(s).Parsed? ==> Parse(s + more) == Parsed(Parse(s).message, Parse(s).rest + more)
    ensures Parse(s).TooLarge? ==> Parse(s + more).TooLarge?
  {
    if |s| >= HEADER_LENGTH {
      assert (s + more)[0..4] == s[0..4];
    }
    match Parse(s)
    case Parsed(m, rest) =>
      ParsedIsFrame(s, m, rest);
      assert s + more == Frame(m) + (rest + more);
      FrameParses(s + more, m, rest + more);
    case NeedMore =>
    case TooLarge =>
  }

  // ---------- The codec over a buffer ----------

  method Encode(buf: Buffer<Octet>, m: RpcMessage)
    requires buf.Valid()
    modifies buf, buf.buffer
    ensures buf.Valid() && (buf.buffer == old(buf.buffer) || fresh(buf.buffer))
    ensures buf.Contents() == old(buf.Contents()) + Frame(m)
  {
    var bodyLen := |m.payload| % TWO_32;
    var totalLen := HEADER_LENGTH + bodyLen;
    buf.EnsureWritableBytes(totalLen);
    WriteHeader(buf, m);
    WriteBody(buf, m);
    buf.HasWritten(totalLen);
  }

  method WriteBody(buf: Buffer<Octet>, m: RpcMessage)
    requires buf.Valid() && buf.WriteableBytes() >= HEADER_LENGTH + BodyLength(m)
    requires buf.Stored(HEADER_LENGTH) == Header(m)
    modifies buf.buffer
    ensures buf.Contents() == old(buf.Contents())
    ensures buf.Stored(HEADER_LENGTH + BodyLength(m)) == Frame(m)
  {
    hide Header;
    var bodyLen := BodyLength(m);
    if bodyLen > 0 {
      buf.Store(HEADER_LENGTH, m.payload[..bodyLen]);
    }
    assert bodyLen == 0 ==> Header(m) + m.payload[..bodyLen] == Header(m);
  }

  method WriteHeader(buf: Buffer<Octet>, m: RpcMessage)
    requires buf.Valid() && buf.WriteableBytes() >= HEADER_LENGTH
    modifies buf.buffer
    ensures buf.Contents() == old(buf.Contents())
    ensures buf.Stored(HEADER_LENGTH) == Header(m)
  {
    hide BigEndian, ToUnsigned, BodyLength;
    ghost var nothing := buf.Stored(0);
    buf.Store(0, BigEndian(BodyLength(m), 4));
    assert nothing + BigEndian(BodyLength(m), 4) == BigEndian(BodyLength(m), 4);
    buf.Store(4, BigEndian(ToUnsigned(m.messageType), 4));
    buf.Store(8, BigEndian(m.id, 8));
  }

  /** Takes one message off the buffer; without a complete one, nothing changes. */
  method Decode(buf: Buffer<Octet>, outMsg: RpcMessage) returns (result: DecodeResult, out: RpcMessage)
    requires buf.Valid()
    modifies buf`readIndex
    ensures buf.Valid()
    ensures match Parse(old(buf.Contents()))
            case Parsed(m, rest) => result == Complete && out == m && buf.Contents() == rest
            case NeedMore => result == Incomplete && out == outMsg && unchanged(buf)
            case TooLarge => result == Error && out == outMsg && unchanged(buf)
  {
    if buf.ReadableBytes() < HEADER_LENGTH {
      return Incomplete, outMsg;
    }
    var data := buf.Readable();
    var bodyLen := Value(data[0..4]);
    if bodyLen > MAX_MESSAGE_LENGTH {
      return Error, outMsg;
    }
    var totalLen := HEADER_LENGTH + bodyLen;
    if buf.ReadableBytes() < totalLen {
      return Incomplete, outMsg;
    }
    BigEndianOfValue(data[4..8]);
    BigEndianOfValue(data[8..16]);
    Widths();
    out := RpcMessage(ToSigned(Value(data[4..8])), Value(data[8..16]), data[HEADER_LENGTH..totalLen]);
    buf.Retrieve(totalLen);
    return Complete, out;
  }

  // ---------- Streams over buffers ----------

  /** Decoding may stop anywhere and go on when more has arrived. */
  lemma {:induction false} DecodeMore(s: seq<Octet>, more: seq<Octet>)
    ensures DecodeAll(s + more) == After(DecodeAll(s).0, DecodeAll(DecodeAll(s).1 + more))
    decreases |s|
  {
    hide Parse, Frame, After;
    var p := Parse(s);
    if p.Parsed? {
      VerdictIsStable(s, more);
      ParsedIsFrame(s, p.message, p.rest);
      FrameIsLong(p.message);
      DecodeMore(p.rest, more);
      DecodeStep(s);
      DecodeStep(s + more);
      AfterBoth([p.message], DecodeAll(p.rest).0, DecodeAll(DecodeAll(s).1 + more));
      AfterBoth([p.message], DecodeAll(p.rest).0, ([], DecodeAll(p.rest).1));
    } else {
      NothingFound(s);
      AfterNothing(DecodeAll(s + more));
    }
  }

  /** What is found behind `front`. */
  function After(front: seq<RpcMessage>, found: (seq<RpcMessage>, seq<Octet>)): (seq<RpcMessage>, seq<Octet>) {
    (front + found.0, found.1)
  }

  lemma AfterNothing(found: (seq<RpcMessage>, seq<Octet>))
    ensures After([], found) == found
  {
    assert [] + found.0 == found.0;
  }

  lemma AfterBoth(a: seq<RpcMessage>, b: seq<RpcMessage>, found: (seq<RpcMessage>, seq<Octet>))
    ensures After(a, After(b, found)) == After(a + b, found)
  {
    assert a + (b + found.0) == a + b + found.0;
  }

  lemma DecodeStep(s: seq<Octet>)
    requires Parse(s).Parsed?
    ensures DecodeAll(s) == After([Parse(s).message], DecodeAll(Parse(s).rest))
    ensures DecodeAll(s).0 == [Parse(s).message] + DecodeAll(Parse(s).rest).0
    ensures DecodeAll(s).1 == DecodeAll(Parse(s).rest).1
  {
    hide Parse;
  }

  lemma NothingFound(s: seq<Octet>)
    requires !Parse(s).Parsed?
    ensures DecodeAll(s) == ([], s)
  {
  }

  lemma FrameIsLong(m: RpcMessage)
    ensures |Frame(m)| > 0
  {
  }

  lemma {:induction false} FramesGrow(messages: seq<RpcMessage>, m: RpcMessage)
    ensures Frames(messages + [m]) == Frames(messages) + Frame(m)
  {
    hide Frame;
    if messages == [] {
      assert [m][1..] == [] && Frames([m]) == Frame(m) + Frames([]);
    } else {
      FramesGrow(messages[1..], m);
      assert (messages + [m])[1..] == messages[1..] + [m];
    }
  }

  method EncodeEach(buf: Buffer<Octet>, messages: seq<RpcMessage>)
    requires buf.Valid()
    modifies buf, buf.buffer
    ensures buf.Valid() && (buf.buffer == old(buf.buffer) || fresh(buf.buffer))
    ensures buf.Contents() == old(buf.Contents()) + Frames(messages)
  {
    hide Frame, Frames;
    ghost var before := buf.Contents();
    FramesOfNone(before);
    for i := 0 to |messages|
      invariant buf.Valid() && (buf.buffer == old(buf.buffer) || fresh(buf.buffer))
      invariant buf.Contents() == before + Frames(messages[..i])
    {
      Encode(buf, messages[i]);
      FramesGrow(messages[..i], messages[i]);
      assert messages[..i + 1] == messages[..i] + [messages[i]];
    }
    assert messages[..|messages|] == messages;
  }

  lemma FramesOfNone(before: seq<Octet>)
    ensures before + Frames([]) == before
  {
  }

  /** Takes all complete messages off the buffer. */
  method DecodeEach(buf: Buffer<Octet>) returns (messages: seq<RpcMessage>)
    requires buf.Valid()
    modifies buf`readIndex
    ensures buf.Valid() && (messages, buf.Contents()) == DecodeAll(old(buf.Contents()))
  {
    hide Parse, DecodeAll, After, Frame;
    ghost var all := DecodeAll(buf.Contents());
    messages := [];
    AfterNothing(all);
    while buf.ReadableBytes() > 0
      invariant buf.Valid() && all == After(messages, DecodeAll(buf.Contents()))
      decreases |buf.Contents()|
    {
      ghost var s := buf.Contents();
      var result, message := Decode(buf, RpcMessage(0, 0, []));
      if result != Complete {
        break;
      }
      ParsedIsFrame(s, message, buf.Contents());
      FrameIsLong(message);
      DecodeStep(s);
      AfterBoth(messages, [message], DecodeAll(buf.Contents()));
      messages := messages + [message];
    }
    EmptyIsShort();
    NothingFound(buf.Contents());
    AllFound(messages, buf.Contents());
  }

  lemma AllFound(messages: seq<RpcMessage>, rest: seq<Octet>)
    ensures After(messages, ([], rest)) == (messages, rest)
  {
    assert messages + [] == messages;
  }

  lemma EmptyIsShort()
    ensures Parse([]) == NeedMore
  {
  }

  function Joined(chunks: seq<seq<Octet>>): seq<Octet> {
    if chunks == [] then [] else Joined(chunks[..|chunks| - 1]) + chunks[|chunks| - 1]
  }

  /** The frames of `sent` and then nothing or a front part of one more frame. */
  ghost predicate CutStream(s: seq<Octet>, sent: seq<RpcMessage>, tail: seq<Octet>) {
    && s == Frames(sent) + tail && (forall m :: m in sent ==> Sendable(m))
    && (tail == [] || exists m :: CutFrame(tail, m))
  }

  /** Decodes a stream that arrives in chunks of any sizes. What is found does not depend on where the
  stream was cut: when the chunks are the frames of `sent` and a front part of one more frame, exactly
  those messages are found, and that front part stays in the buffer. */
  method DecodeArriving(buf: Buffer<Octet>, chunks: seq<seq<Octet>>, ghost sent: seq<RpcMessage>, ghost tail: seq<Octet>)
    returns (messages: seq<RpcMessage>)
    requires buf.Valid()
    modifies buf, buf.buffer
    ensures buf.Valid() && (messages, buf.Contents()) == DecodeAll(old(buf.Contents()) + Joined(chunks))
    ensures CutStream(old(buf.Contents()) + Joined(chunks), sent, tail) ==> messages == sent && buf.Contents() == tail
  {
    hide Parse, DecodeAll, Frames, CutFrame, After;
    ghost var before := buf.Contents();
    messages := DecodeEach(buf);
    assert before + Joined(chunks[..0]) == before;
    for i := 0 to |chunks|
      invariant buf.Valid() && (buf.buffer == old(buf.buffer) || fresh(buf.buffer))
      invariant (messages, buf.Contents()) == DecodeAll(before + Joined(chunks[..i]))
    {
      DecodeMore(before + Joined(chunks[..i]), chunks[i]);
      assert chunks[..i + 1][..i] == chunks[..i];
      assert before + Joined(chunks[..i + 1]) == before + Joined(chunks[..i]) + chunks[i];
      buf.Append(chunks[i]);
      var more := DecodeEach(buf);
      AfterBoth(messages, more, ([], buf.Contents()));
      AllFound(more, buf.Contents());
      messages := messages + more;
      AllFound(messages, buf.Contents());
    }
    assert chunks[..|chunks|] == chunks;
    if CutStream(before + Joined(chunks), sent, tail) {
      StreamRoundTrip(sent, tail);
    }
  }
}
