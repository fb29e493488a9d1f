/** What a cache that evicts the least recently used entry holds, as a list with the most recently
used entry first. */
module RecencyList {
  import opened Sequences

  datatype Entry<K, V> = Entry(key: K, value: V)

  function Keys<K, V>(entries: seq<Entry<K, V>>): (keys: seq<K>)
    ensures |keys| == |entries| && forall i :: 0 <= i < |entries| ==> keys[i] == entries[i].key
  {
    seq(|entries|, i requires 0 <= i < |entries| => entries[i].key)
  }

  function Remove<K(==)>(keys: seq<K>, key: K): seq<K> {
    if keys == [] then []
    else if keys[0] == key then Remove(keys[1..], key)
    else [keys[0]] + Remove(keys[1..], key)
  }

  /** The key becomes the most recently used one. */
  function Touch<K(==)>(keys: seq<K>, key: K): seq<K> {
    [key] + Remove(keys, key)
  }

  function Truncate<T>(s: seq<T>, capacity: nat): seq<T> {
    if |s| <= capacity then s else s[..capacity]
  }

  /** Using a key: a cached one moves to the front, a new one is put there and the last evicted. */
  function Use<K(==)>(keys: seq<K>, key: K, capacity: nat): seq<K> {
    Truncate(Touch(keys, key), capacity)
  }

  // ---------- Removal ----------

  lemma {:induction false} RemovedKeys<K>(keys: seq<K>, key: K)
    ensures |Remove(keys, key)| <= |keys| && key !in Remove(keys, key)
    ensures forall k :: k in Remove(keys, key) <==> k in keys && k != key
  {
    if keys != [] {
      RemovedKeys(keys[1..], key);
      assert keys == [keys[0]] + keys[1..];
    }
  }

  lemma {:induction false} RemoveKeepsDistinct<K>(keys: seq<K>, key: K)
    requires Distinct(keys)
    ensures Distinct(Remove(keys, key))
  {
    if keys != [] {
      RemoveKeepsDistinct(keys[1..], key);
      RemovedKeys(keys[1..], key);
      assert keys[0] !in keys[1..];
    }
  }

  lemma {:induction false} RemoveAbsent<K>(keys: seq<K>, key: K)
    requires key !in keys
    ensures Remove(keys, key) == keys
  {
    if keys != [] {
      RemoveAbsent(keys[1..], key);
    }
  }

  lemma {:induction false} RemoveShortens<K>(keys: seq<K>, key: K)
    requires key in keys
    ensures |Remove(keys, key)| < |keys|
  {
    RemovedKeys(keys[1..], key);
    if keys[0] != key {
      RemoveShortens(keys[1..], key);
    }
  }

  lemma {:induction false} RemoveSplits<K>(a: seq<K>, b: seq<K>, key: K)
    ensures Remove(a + b, key) == Remove(a, key) + Remove(b, key)
  {
    if a == [] {
      assert a + b == b;
    } else {
      RemoveSplits(a[1..], b, key);
      FirstOfAppended(a, b);
      Regroup([a[0]], Remove(a[1..], key), Remove(b, key));
    }
  }

  lemma OnlyAt<K>(keys: seq<K>, i: nat)
    requires i < |keys| && Distinct(keys)
    ensures keys[i] !in keys[..i] && keys[i] !in keys[i + 1..]
  {
  }

  /** Removing the key at index `i` of a list without repetition takes out that element. */
  lemma RemoveAt<K>(keys: seq<K>, i: nat)
    requires i < |keys| && Distinct(keys)
    ensures Remove(keys, keys[i]) == keys[..i] + keys[i + 1..]
  {
    hide Distinct;
    var key := keys[i];
    assert keys == keys[..i] + ([key] + keys[i + 1..]);
    assert key !in keys[..i] && key !in keys[i + 1..] by {
      OnlyAt(keys, i);
    }
    RemoveSplits(keys[..i], [key] + keys[i + 1..], key);
    RemoveSplits([key], keys[i + 1..], key);
    RemoveAbsent(keys[..i], key);
    RemoveAbsent(keys[i + 1..], key);
  }

  // ---------- Entries ----------

  function RemoveEntry<K(==), V>(entries: seq<Entry<K, V>>, key: K): seq<Entry<K, V>> {
    if entries == [] then []
    else if entries[0].key == key then RemoveEntry(entries[1..], key)
    else [entries[0]] + RemoveEntry(entries[1..], key)
  }

  /** The entry becomes the most recently used one, in place of any with the same key. */
  function PutFront<K(==), V>(entries: seq<Entry<K, V>>, key: K, value: V): seq<Entry<K, V>> {
    [Entry(key, value)] + RemoveEntry(entries, key)
  }

  lemma {:induction false} KeysOfRemoved<K, V>(entries: seq<Entry<K, V>>, key: K)
    ensures Keys(RemoveEntry(entries, key)) == Remove(Keys(entries), key)
  {
    if entries != [] {
      KeysOfRemoved(entries[1..], key);
      assert Keys(entries)[1..] == Keys(entries[1..]);
    }
  }

  lemma KeysOfPut<K, V>(entries: seq<Entry<K, V>>, key: K, value: V)
    ensures Keys(PutFront(entries, key, value)) == Touch(Keys(entries), key)
  {
    KeysOfRemoved(entries, key);
    assert Keys(PutFront(entries, key, value)) == [key] + Keys(RemoveEntry(entries, key));
  }

  lemma {:induction false} RemoveEntryAt<K, V>(entries: seq<Entry<K, V>>, i: nat)
    requires i < |entries| && Distinct(Keys(entries))
    ensures RemoveEntry(entries, entries[i].key) == entries[..i] + entries[i + 1..]
  {
    var key := entries[i].key;
    var tail := entries[1..];
    assert Keys(tail) == Keys(entries)[1..];
    if i == 0 {
      assert forall j :: 0 <= j < |tail| ==> tail[j].key == Keys(entries)[j + 1];
      RemoveEntryAbsent(tail, key);
    } else {
      RemoveEntryAt(tail, i - 1);
      assert entries[0].key == Keys(entries)[0] != Keys(entries)[i];
      assert entries[..i] == [entries[0]] + tail[..i - 1];
    }
  }

  lemma {:induction false} RemoveEntryAbsent<K, V>(entries: seq<Entry<K, V>>, key: K)
    requires forall j :: 0 <= j < |entries| ==> entries[j].key != key
    ensures RemoveEntry(entries, key) == entries
  {
    if entries != [] {
      RemoveEntryAbsent(entries[1..], key);
    }
  }

  lemma {:induction false} RemovedEntries<K, V>(entries: seq<Entry<K, V>>, key: K)
    ensures forall e :: e in RemoveEntry(entries, key) ==> e in entries
  {
    if entries != [] {
      RemovedEntries(entries[1..], key);
    }
  }

  // ---------- Request traces ----------

  /** What a cache of the given capacity holds after a trace of requests, oldest request first. */
  function Cached<K(==)>(trace: seq<K>, capacity: nat): seq<K> {
    if trace == [] then []
    else Use(Cached(trace[..|trace| - 1], capacity), trace[|trace| - 1], capacity)
  }

  function Hits<K(==)>(trace: seq<K>, capacity: nat): nat {
    if trace == [] then 0
    else
      var before := trace[..|trace| - 1];
      Hits(before, capacity) + if trace[|trace| - 1] in Cached(before, capacity) then 1 else 0
  }

  /** When the key was last requested: one more than its index, zero if never. */
  function LastUse<K(==)>(trace: seq<K>, key: K): nat {
    if trace == [] then 0
    else if trace[|trace| - 1] == key then |trace|
    else LastUse(trace[..|trace| - 1], key)
  }

  /** The list of all keys of a trace without repetition, the most recently used first. */
  ghost predicate ByRecency<K(!new)>(trace: seq<K>, keys: seq<K>) {
    && (forall k :: k in keys <==> k in trace)
    && (forall i, j :: 0 <= i < j < |keys| ==> LastUse(trace, keys[i]) > LastUse(trace, keys[j]))
  }

  /** A cache without any limit. */
  function AllUsed<K(==)>(trace: seq<K>): seq<K> {
    if trace == [] then [] else Touch(AllUsed(trace[..|trace| - 1]), trace[|trace| - 1])
  }

  lemma {:induction false} AllUsedByRecency<K(!new)>(trace: seq<K>)
    ensures ByRecency(trace, AllUsed(trace)) && Distinct(AllUsed(trace))
  {
    if trace != [] {
      var before, key := trace[..|trace| - 1], trace[|trace| - 1];
      AllUsedByRecency(before);
      TouchByRecency(before, AllUsed(before), key);
      RemoveKeepsDistinct(AllUsed(before), key);
      RemovedKeys(AllUsed(before), key);
      assert trace == before + [key];
    }
  }

  lemma TouchByRecency<K(!new)>(trace: seq<K>, keys: seq<K>, key: K)
    requires ByRecency(trace, keys)
    ensures ByRecency(trace + [key], Touch(keys, key))
  {
    var longer, rest := trace + [key], Remove(keys, key);
    RemovedKeys(keys, key);
    RemovalKeepsOrder(trace, keys, key);
    assert longer[..|trace|] == trace;
    forall k | k in rest ensures LastUse(longer, k) == LastUse(trace, k) < LastUse(longer, key) {
      LastUseInTrace(trace, k);
    }
    forall i, j | 0 <= i < j < |rest| ensures LastUse(longer, rest[i]) > LastUse(longer, rest[j]) {
      assert rest[i] in rest && rest[j] in rest;
    }
    TouchedOrder(longer, key, rest);
  }

  lemma TouchedOrder<K(!new)>(trace: seq<K>, key: K, rest: seq<K>)
    requires forall k :: k in rest ==> LastUse(trace, k) < LastUse(trace, key)
    requires forall i, j :: 0 <= i < j < |rest| ==> LastUse(trace, rest[i]) > LastUse(trace, rest[j])
    ensures var keys := [key] + rest;
      forall i, j :: 0 <= i < j < |keys| ==> LastUse(trace, keys[i]) > LastUse(trace, keys[j])
  {
    var keys := [key] + rest;
    forall i, j | 0 <= i < j < |keys| ensures LastUse(trace, keys[i]) > LastUse(trace, keys[j]) {
      assert keys[j] == rest[j - 1];
      if i > 0 {
        assert keys[i] == rest[i - 1];
      }
    }
  }

  lemma {:induction false} LastUseInTrace<K>(trace: seq<K>, key: K)
    ensures LastUse(trace, key) <= |trace|
  {
    if trace != [] {
      LastUseInTrace(trace[..|trace| - 1], key);
    }
  }

  lemma {:induction false} RemovalKeepsOrder<K(!new)>(trace: seq<K>, keys: seq<K>, key: K)
    requires forall i, j :: 0 <= i < j < |keys| ==> LastUse(trace, keys[i]) > LastUse(trace, keys[j])
    ensures var rest := Remove(keys, key);
      forall i, j :: 0 <= i < j < |rest| ==> LastUse(trace, rest[i]) > LastUse(trace, rest[j])
  {
    if keys != [] {
      var tail := keys[1..];
      RemovalKeepsOrder(trace, tail, key);
      RemovedKeys(tail, key);
      forall k | k in Remove(tail, key) ensures LastUse(trace, keys[0]) > LastUse(trace, k) {
        var j :| 0 <= j < |tail| && tail[j] == k;
        assert tail[j] == keys[j + 1];
      }
    }
  }

  /** Only one list is sorted by recency, so the predicate says which one. */
  lemma OneListByRecency<K(!new)>(trace: seq<K>, a: seq<K>, b: seq<K>)
    requires ByRecency(trace, a) && ByRecency(trace, b)
    ensures a == b
  {
    SameFront(trace, a, b, |a|);
    SameFront(trace, b, a, |b|);
  }

  lemma {:induction false} SameFront<K(!new)>(trace: seq<K>, a: seq<K>, b: seq<K>, n: nat)
    requires ByRecency(trace, a) && ByRecency(trace, b) && n <= |a|
    ensures n <= |b| && a[..n] == b[..n]
  {
    if n > 0 {
      SameFront(trace, a, b, n - 1);
      var i := FindBeyond(trace, a, b, n - 1);
      var j := FindBeyond(trace, b, a, n - 1);
      assert a[n - 1] == b[n - 1];
    }
  }

  lemma FindBeyond<K(!new)>(trace: seq<K>, a: seq<K>, b: seq<K>, n: nat) returns (i: nat)
    requires ByRecency(trace, a) && ByRecency(trace, b) && n < |a| && n <= |b| && a[..n] == b[..n]
    ensures n <= i < |b| && b[i] == a[n]
  {
    forall k | 0 <= k < n ensures b[k] != a[n] {
      assert b[k] == b[..n][k] == a[..n][k] == a[k];
    }
    assert a[n] in b;
    i :| 0 <= i < |b| && b[i] == a[n];
  }

  // ---------- The stack property ----------

  lemma RemoveTruncated<K>(keys: seq<K>, key: K, n: nat)
    requires Distinct(keys) && n > 0
    ensures Truncate(Remove(Truncate(keys, n), key), n - 1) == Truncate(Remove(keys, key), n - 1)
  {
    if key !in keys {
      RemoveAbsent(keys, key);
      RemoveAbsent(Truncate(keys, n), key);
    } else if |keys| > n {
      var i :| 0 <= i < |keys| && keys[i] == key;
      if i < n {
        RemoveInFront(keys, i, n);
        assert |Remove(keys[..n], key)| == n - 1;
      } else {
        RemoveAt(keys, i);
        RemoveAbsent(keys[..n], key);
        assert (keys[..i] + keys[i + 1..])[..n - 1] == keys[..n][..n - 1];
      }
    }
  }

  lemma RemoveInFront<K>(keys: seq<K>, i: nat, n: nat)
    requires Distinct(keys) && i < n < |keys|
    ensures |Remove(keys, keys[i])| == |keys| - 1
    ensures Remove(keys[..n], keys[i]) == Remove(keys, keys[i])[..n - 1]
  {
    RemoveAt(keys, i);
    RemoveAt(keys[..n], i);
    assert keys[..n][..i] + keys[..n][i + 1..] == (keys[..i] + keys[i + 1..])[..n - 1];
  }

  /** Truncating before or after a request makes no difference. */
  lemma UseTruncated<K>(keys: seq<K>, key: K, capacity: nat)
    requires Distinct(keys)
    ensures Use(Truncate(keys, capacity), key, capacity) == Truncate(Touch(keys, key), capacity)
  {
    if capacity > 0 {
      RemoveTruncated(keys, key, capacity);
      TruncateAfterFirst(key, Remove(Truncate(keys, capacity), key), capacity);
      TruncateAfterFirst(key, Remove(keys, key), capacity);
    }
  }

  lemma TruncateAfterFirst<K>(key: K, keys: seq<K>, n: nat)
    requires n > 0
    ensures Truncate([key] + keys, n) == [key] + Truncate(keys, n - 1)
  {
  }

  /** The stack property: whatever the trace, a cache of capacity `c` holds the `c` most recently used
  keys, most recent first. */
  lemma {:induction false} StackProperty<K(!new)>(trace: seq<K>, capacity: nat)
    ensures Cached(trace, capacity) == Truncate(AllUsed(trace), capacity)
  {
    if trace != [] {
      var before := trace[..|trace| - 1];
      StackProperty(before, capacity);
      AllUsedByRecency(before);
      UseTruncated(AllUsed(before), trace[|trace| - 1], capacity);
    }
  }

  /** The same without the unlimited cache: for the list of keys by recency. */
  lemma HoldsMostRecent<K(!new)>(trace: seq<K>, capacity: nat, byRecency: seq<K>)
    requires ByRecency(trace, byRecency)
    ensures Cached(trace, capacity) == Truncate(byRecency, capacity)
  {
    StackProperty(trace, capacity);
    AllUsedByRecency(trace);
    OneListByRecency(trace, byRecency, AllUsed(trace));
  }

  /** A larger cache holds everything a smaller one holds, in the same order. */
  lemma Inclusion<K(!new)>(trace: seq<K>, small: nat, large: nat)
    requires small <= large
    ensures Cached(trace, small) <= Cached(trace, large)
  {
    StackProperty(trace, small);
    StackProperty(trace, large);
  }

  /** A larger cache never scores fewer hits. */
  lemma {:induction false} HitsMonotone<K(!new)>(trace: seq<K>, small: nat, large: nat)
    requires small <= large
    ensures Hits(trace, small) <= Hits(trace, large) <= |trace|
  {
    if trace != [] {
      var before := trace[..|trace| - 1];
      HitsMonotone(before, small, large);
      Inclusion(before, small, large);
    }
  }

  /** The size of a cache: as many keys as it can hold of those that were used. */
  lemma CachedSize<K(!new)>(trace: seq<K>, capacity: nat)
    ensures Distinct(Cached(trace, capacity)) && |Cached(trace, capacity)| <= capacity
    ensures forall k :: k in Cached(trace, capacity) ==> k in trace
  {
    StackProperty(trace, capacity);
    AllUsedByRecency(trace);
  }

  // ---------- Hits without a cache ----------

  /** The distinct keys of a stretch of requests. */
  function Elements<K(==)>(s: seq<K>): set<K> {
    set k | k in s
  }

  lemma {:induction false} UsedSince<K(!new)>(trace: seq<K>, key: K, n: nat)
    requires n <= |trace|
    ensures key in trace[n..] <==> LastUse(trace, key) > n
  {
    if trace != [] {
      var before, last := trace[..|trace| - 1], trace[|trace| - 1];
      if n < |trace| {
        UsedSince(before, key, n);
        LastUseInTrace(before, key);
        assert trace[n..] == before[n..] + [last];
      } else {
        LastUseInTrace(trace, key);
      }
    }
  }

  lemma {:induction false} ElementsOfDistinct<K(!new)>(s: seq<K>)
    requires Distinct(s)
    ensures |Elements(s)| == |s|
  {
    if s != [] {
      var front, last := s[..|s| - 1], s[|s| - 1];
      ElementsOfDistinct(front);
      assert s == front + [last] && last !in front;
      assert Elements(s) == Elements(front) + {last};
    }
  }

  /** In front of a key in the recency list are the keys that were used since. */
  lemma UsedInBetween<K(!new)>(trace: seq<K>, keys: seq<K>, p: nat)
    requires ByRecency(trace, keys) && p < |keys|
    ensures LastUse(trace, keys[p]) <= |trace|
    ensures Elements(keys[..p]) == Elements(trace[LastUse(trace, keys[p])..])
  {
    var n := LastUse(trace, keys[p]);
    LastUseInTrace(trace, keys[p]);
    forall k ensures k in keys[..p] <==> k in trace[n..] {
      UsedSince(trace, k, n);
      if k in trace[n..] {
        assert k in trace;
        var j :| 0 <= j < |keys| && keys[j] == k;
        assert j < p;
        assert keys[..p][j] == k;
      }
    }
  }

  /** A key is cached exactly when it was used and fewer distinct keys than the capacity were used since. */
  lemma CachedExactlyWhen<K(!new)>(trace: seq<K>, key: K, capacity: nat)
    ensures LastUse(trace, key) <= |trace|
    ensures key in Cached(trace, capacity) <==>
      key in trace && |Elements(trace[LastUse(trace, key)..])| < capacity
  {
    var keys := AllUsed(trace);
    LastUseInTrace(trace, key);
    StackProperty(trace, capacity);
    AllUsedByRecency(trace);
    if key in trace {
      var p :| 0 <= p < |keys| && keys[p] == key;
      UsedInBetween(trace, keys, p);
      ElementsOfDistinct(keys[..p]);
      InFront(keys, p, capacity);
    }
  }

  lemma InFront<K(!new)>(keys: seq<K>, p: nat, capacity: nat)
    requires Distinct(keys) && p < |keys|
    ensures keys[p] in Truncate(keys, capacity) <==> p < capacity
  {
    if p < capacity {
      assert Truncate(keys, capacity)[p] == keys[p];
    }
  }

  /** Request `i` asks for a key that was asked for before, with fewer distinct keys than the capacity since. */
  ghost predicate IsHit<K>(trace: seq<K>, i: nat, capacity: nat) {
    && i < |trace| && LastUse(trace[..i], trace[i]) <= i && trace[i] in trace[..i]
    && |Elements(trace[LastUse(trace[..i], trace[i])..i])| < capacity
  }

  ghost function HitsAmong<K>(trace: seq<K>, n: nat, capacity: nat): set<nat> {
    set i: nat | i < n && IsHit(trace, i, capacity)
  }

  lemma {:induction false} HitsUpTo<K(!new)>(trace: seq<K>, n: nat, capacity: nat)
    requires n <= |trace|
    ensures Hits(trace[..n], capacity) == |HitsAmong(trace, n, capacity)|
  {
    hide IsHit, Cached;
    if n == 0 {
      assert HitsAmong(trace, n, capacity) == {};
    } else {
      HitsUpTo(trace, n - 1, capacity);
      assert trace[..n][..n - 1] == trace[..n - 1];
      LastIsHit(trace, n, capacity);
      OneMoreHit(trace, n, capacity);
    }
  }

  lemma LastIsHit<K(!new)>(trace: seq<K>, n: nat, capacity: nat)
    requires 0 < n <= |trace|
    ensures trace[n - 1] in Cached(trace[..n - 1], capacity) <==> IsHit(trace, n - 1, capacity)
  {
    hide Cached, Elements, LastUse;
    var front, key := trace[..n - 1], trace[n - 1];
    CachedExactlyWhen(front, key, capacity);
    assert front[LastUse(front, key)..] == trace[LastUse(front, key)..n - 1];
  }

  lemma OneMoreHit<K(!new)>(trace: seq<K>, n: nat, capacity: nat)
    requires n > 0
    ensures |HitsAmong(trace, n, capacity)|
         == |HitsAmong(trace, n - 1, capacity)| + if IsHit(trace, n - 1, capacity) then 1 else 0
  {
    hide IsHit;
    assert HitsAmong(trace, n, capacity)
        == HitsAmong(trace, n - 1, capacity) + if IsHit(trace, n - 1, capacity) then {n - 1} else {};
  }

  /** The hits of a trace are the requests with a short enough way back to the same key. */
  lemma HitsExactly<K(!new)>(trace: seq<K>, capacity: nat)
    ensures Hits(trace, capacity) == |HitsAmong(trace, |trace|, capacity)|
  {
    HitsUpTo(trace, |trace|, capacity);
    assert trace[..|trace|] == trace;
  }
}
