/** The key under which the pool keeps the connections of a route to an endpoint. */
module BucketKey {
  import opened HttpFields
  import opened HttpSyntax
  import opened Wrappers

  datatype Endpoint = Endpoint(host: string, port: nat)

  function ToDecimal(n: nat): (s: string)
    ensures s != "" && AllDigits(s)
  {
    var last := ['0' + (n % 10) as char];
    if n < 10 then last else ToDecimal(n / 10) + last
  }

  lemma {:induction false} DecimalOfDigits(n: nat)
    ensures Decimal(ToDecimal(n)) == n
  {
    var s := ToDecimal(n);
    if n < 10 {
      assert s[..0] == "";
    } else {
      DecimalOfDigits(n / 10);
      assert s[..|s| - 1] == ToDecimal(n / 10);
    }
  }

  function EndpointKey(endpoint: Endpoint): string {
    endpoint.host + ":" + ToDecimal(endpoint.port)
  }

  function MakeBucketKey(routeName: string, endpoint: Endpoint): string {
    ToDecimal(|routeName|) + ":" + routeName + EndpointKey(endpoint)
  }

  /** Digits in front of a colon are found again, whatever follows. */
  lemma SameDigitsInFront(a: string, x: string, b: string, y: string)
    requires AllDigits(a) && AllDigits(b) && a + ":" + x == b + ":" + y
    ensures a == b && x == y
  {
    FirstColon(a, x);
    FirstColon(b, y);
    var s := a + ":" + x;
    assert a == s[..|a|] == b && x == s[|a| + 1..] == y;
  }

  lemma FirstColon(a: string, x: string)
    requires AllDigits(a)
    ensures FindChar(a + ":" + x, ':', 0) == Some(|a|)
  {
    var s := a + ":" + x;
    assert s[|a|] == ':' && forall k :: 0 <= k < |a| ==> s[k] == a[k];
  }

  ghost predicate LastColonAt(s: string, i: nat) {
    i < |s| && s[i] == ':' && forall k :: i < k < |s| ==> s[k] != ':'
  }

  lemma LastColon(x: string, a: string)
    requires AllDigits(a)
    ensures LastColonAt(x + ":" + a, |x|)
  {
    var s := x + ":" + a;
    assert forall k :: |x| < k < |s| ==> s[k] == a[k - |x| - 1];
  }

  lemma SameDigitsBehind(x: string, a: string, y: string, b: string)
    requires AllDigits(a) && AllDigits(b) && x + ":" + a == y + ":" + b
    ensures x == y && a == b
  {
    LastColon(x, a);
    LastColon(y, b);
    var s := x + ":" + a;
    assert |x| == |y|;
    assert x == s[..|x|] == y && a == s[|x| + 1..] == b;
  }

  /** Different routes or endpoints never share a bucket, whatever characters their names contain. */
  lemma KeysAreInjective(nameA: string, a: Endpoint, nameB: string, b: Endpoint)
    ensures MakeBucketKey(nameA, a) == MakeBucketKey(nameB, b) <==> nameA == nameB && a == b
  {
    if MakeBucketKey(nameA, a) == MakeBucketKey(nameB, b) {
      var restA, restB := nameA + EndpointKey(a), nameB + EndpointKey(b);
      assert MakeBucketKey(nameA, a) == ToDecimal(|nameA|) + ":" + restA;
      assert MakeBucketKey(nameB, b) == ToDecimal(|nameB|) + ":" + restB;
      SameDigitsInFront(ToDecimal(|nameA|), restA, ToDecimal(|nameB|), restB);
      DecimalOfDigits(|nameA|);
      DecimalOfDigits(|nameB|);
      assert nameA == restA[..|nameA|] == restB[..|nameB|] == nameB;
      assert EndpointKey(a) == restA[|nameA|..] == EndpointKey(b);
      SameDigitsBehind(a.host, ToDecimal(a.port), b.host, ToDecimal(b.port));
      DecimalOfDigits(a.port);
      DecimalOfDigits(b.port);
    }
  }
}
