/** The values of header fields: optional white space, names, decimal numbers, connection options. */
module HttpFields {
  import opened HttpSyntax
  import opened Wrappers

  const SIZE_MAX: nat := 0xFFFF_FFFF_FFFF_FFFF

  // ---------- Optional white space ----------

  predicate IsOws(c: char) {
    c == ' ' || c == '\t'
  }

  function TrimFront(s: string): string {
    if s != "" && IsOws(s[0]) then TrimFront(s[1..]) else s
  }

  function TrimBack(s: string): string {
    if s != "" && IsOws(s[|s| - 1]) then TrimBack(s[..|s| - 1]) else s
  }

  function Trim(s: string): string {
    TrimBack(TrimFront(s))
  }

  method TrimOws(s: string) returns (value: string)
    ensures value == Trim(s)
  {
    value := s;
    while value != "" && IsOws(value[0])
      invariant TrimFront(value) == TrimFront(s)
      decreases |value|
    {
      value := value[1..];
    }
    while value != "" && IsOws(value[|value| - 1])
      invariant TrimBack(value) == Trim(s)
      decreases |value|
    {
      value := value[..|value| - 1];
    }
  }

  ghost predicate AllOws(s: string) {
    forall i :: 0 <= i < |s| ==> IsOws(s[i])
  }

  /** White space on both sides goes, and nothing else: what remains has none at its ends. */
  lemma {:induction false} TrimFrontSplits(s: string) returns (front: string)
    ensures s == front + TrimFront(s) && AllOws(front)
    ensures TrimFront(s) != "" ==> !IsOws(TrimFront(s)[0])
  {
    if s != "" && IsOws(s[0]) {
      front := TrimFrontSplits(s[1..]);
      front := [s[0]] + front;
    } else {
      front := "";
    }
  }

  lemma {:induction false} TrimBackSplits(s: string) returns (back: string)
    ensures s == TrimBack(s) + back && AllOws(back)
    ensures TrimBack(s) != "" ==> !IsOws(TrimBack(s)[|TrimBack(s)| - 1])
  {
    if s != "" && IsOws(s[|s| - 1]) {
      back := TrimBackSplits(s[..|s| - 1]);
      back := back + [s[|s| - 1]];
    } else {
      back := "";
    }
  }

  ghost predicate TrimmedTo(s: string, value: string, front: string, back: string) {
    && s == front + value + back && AllOws(front) && AllOws(back)
    && (value == "" || (!IsOws(value[0]) && !IsOws(value[|value| - 1])))
  }

  /** Trimming is the only way to split off all white space. */
  lemma TrimExactly(s: string, value: string)
    ensures value == Trim(s) <==> exists front, back :: TrimmedTo(s, value, front, back)
  {
    if value == Trim(s) {
      var front := TrimFrontSplits(s);
      var back := TrimBackSplits(TrimFront(s));
      assert TrimmedTo(s, value, front, back);
    }
    if front, back :| TrimmedTo(s, value, front, back) {
      TrimFrontOf(front, value + back);
      assert s == front + (value + back);
      if value == "" {
        assert value + back == back + "";
        TrimFrontOf(back, "");
      } else {
        assert TrimFront(value + back) == value + back;
        TrimBackOf(value, back);
      }
    }
  }

  lemma {:induction false} TrimFrontOf(front: string, s: string)
    requires AllOws(front)
    ensures TrimFront(front + s) == TrimFront(s)
  {
    if front == "" {
      assert front + s == s;
    } else {
      TrimFrontOf(front[1..], s);
      assert (front + s)[1..] == front[1..] + s;
    }
  }

  lemma {:induction false} TrimBackOf(s: string, back: string)
    requires AllOws(back)
    ensures TrimBack(s + back) == TrimBack(s)
  {
    if back == "" {
      assert s + back == s;
    } else {
      TrimBackOf(s, back[..|back| - 1]);
      assert (s + back)[..|s + back| - 1] == s + back[..|back| - 1];
    }
  }

  // ---------- Characters ----------

  predicate IsDigit(c: char) {
    '0' <= c <= '9'
  }

  predicate IsTokenCharacter(c: char) {
    'a' <= c <= 'z' || 'A' <= c <= 'Z' || IsDigit(c) || c in "!#$%&'*+-.^_`|~"
  }

  predicate ValidHeaderName(name: string) {
    name != "" && forall i :: 0 <= i < |name| ==> IsTokenCharacter(name[i])
  }

  predicate ValidHeaderValue(value: string) {
    forall i :: 0 <= i < |value| ==> value[i] == '\t' || (value[i] >= ' ' && value[i] != '\U{7f}')
  }

  function LowerChar(c: char): char {
    if 'A' <= c <= 'Z' then c + ('a' - 'A') else c
  }

  function Lower(s: string): (r: string)
    ensures |r| == |s| && forall i :: 0 <= i < |s| ==> r[i] == LowerChar(s[i])
  {
    seq(|s|, i requires 0 <= i < |s| => LowerChar(s[i]))
  }

  method LowerAscii(value: string) returns (result: string)
    ensures result == Lower(value)
  {
    result := "";
    for i := 0 to |value|
      invariant result == Lower(value)[..i]
    {
      var c := value[i];
      if 'A' <= c <= 'Z' {
        result := result + [c + ('a' - 'A')];
      } else {
        result := result + [c];
      }
    }
  }

  // ---------- Decimal numbers ----------

  predicate AllDigits(s: string) {
    forall i :: 0 <= i < |s| ==> IsDigit(s[i])
  }

  function Digit(c: char): nat
    requires IsDigit(c)
  {
    c as int - '0' as int
  }

  /** The number a string of digits stands for. */
  function Decimal(s: string): nat
    requires AllDigits(s)
  {
    if s == "" then 0 else 10 * Decimal(s[..|s| - 1]) + Digit(s[|s| - 1])
  }

  /** What the header grammar makes of a value: digits, at least one, that fit a `size_t`. */
  function Length(value: string): Option<nat> {
    var digits := Trim(value);
    if digits != "" && AllDigits(digits) && Decimal(digits) <= SIZE_MAX then Some(Decimal(digits)) else None
  }

  lemma {:induction false} DecimalGrows(s: string, n: nat)
    requires AllDigits(s) && n <= |s|
    ensures Decimal(s[..n]) <= Decimal(s)
    decreases |s|
  {
    if n == |s| {
      assert s[..n] == s;
    } else {
      DecimalGrows(s[..|s| - 1], n);
      assert s[..|s| - 1][..n] == s[..n];
    }
  }

  /** The overflow guard refuses exactly what does not fit. */
  method ParseDecimal(input: string) returns (parsed: Option<nat>)
    ensures parsed == Length(input)
  {
    var value := TrimOws(input);
    if value == "" {
      return None;
    }
    var result: nat := 0;
    for i := 0 to |value|
      invariant AllDigits(value[..i]) && result == Decimal(value[..i]) <= SIZE_MAX
    {
      var c := value[i];
      if c < '0' || c > '9' {
        return None;
      }
      assert AllDigits(value[..i + 1]) && value[..i + 1][..i] == value[..i];
      var digit := Digit(c);
      if result > (SIZE_MAX - digit) / 10 {
        if AllDigits(value) {
          DecimalGrows(value, i + 1);
        }
        return None;
      }
      result := result * 10 + digit;
    }
    assert value[..|value|] == value;
    return Some(result);
  }

  // ---------- Connection options ----------

  /** The options between commas, without white space and in lower case. */
  function Options(value: string): (options: seq<string>)
    ensures options != []
    decreases |value|
  {
    match FindChar(value, ',', 0)
    case None => [Lower(Trim(value))]
    case Some(comma) => [Lower(Trim(value[..comma]))] + Options(value[comma + 1..])
  }

  predicate KnownOptions(options: seq<string>) {
    forall o :: o in options ==> o == "close" || o == "keep-alive"
  }

  /** Only `close` and `keep-alive` are understood; one `close` is enough to close. */
  method ParseConnectionTokens(value: string, keepAliveBefore: bool) returns (ok: bool, keepAlive: bool)
    ensures ok == KnownOptions(Options(value))
    ensures ok ==> keepAlive == (keepAliveBefore && "close" !in Options(value))
  {
    keepAlive := keepAliveBefore;
    var rest := value;
    ghost var done: seq<string> := [];
    while true
      invariant Options(value) == done + Options(rest) && KnownOptions(done)
      invariant keepAlive == (keepAliveBefore && "close" !in done)
      decreases |rest|
    {
      var comma := FindChar(rest, ',', 0);
      var part := if comma.Some? then rest[..comma.value] else rest;
      var trimmed := TrimOws(part);
      var token := LowerAscii(trimmed);
      assert Options(rest)[0] == token;
      if token == "" || (token != "close" && token != "keep-alive") {
        assert token in Options(value);
        return false, keepAlive;
      }
      if token == "close" {
        keepAlive := false;
      }
      done := done + [token];
      if comma.None? {
        break;
      }
      rest := rest[comma.value + 1..];
    }
    assert Options(value) == done;
    return true, keepAlive;
  }
}
