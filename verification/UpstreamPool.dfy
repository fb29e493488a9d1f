/** The upstream connections of one worker: leased to sessions, idle for reuse, or being connected.
Between any two steps the counters of every bucket are exactly what there is, and every open
connection is in one place. */
module UpstreamPool {
  import opened BucketKey
  import opened IoOperation
  import opened Sequences
  import opened Wrappers

  const EPERM: int := 1

  datatype Route = Route(name: string, maxConnectionsPerWorker: nat, maxIdlePerWorker: nat)

  class Connection {
    var open: bool

    constructor ()
      ensures open
    {
      open := true;
    }
  }

  datatype Bucket = Bucket(
    totalCount: int, leasedCount: int, connectingCount: int, maxConnections: nat, maxIdle: nat,
    idleConnections: seq<Connection>)

  /** Where a connection of the pool is. */
  datatype Place = Idle(key: string) | Leased(lease: UpstreamLease)

  /** The first half of an acquisition: an error, a reused connection, or a connect that suspends it. */
  datatype Acquisition = Refused(error: Error) | Reused(lease: UpstreamLease) | Suspended(id: nat)

  /** The counters are those of the live leases and the suspended connects, within the limits. */
  ghost predicate BucketOk(b: Bucket, leases: set<UpstreamLease>, connects: set<nat>) {
    && b.totalCount == b.leasedCount + |b.idleConnections|
    && b.leasedCount == |leases| && b.connectingCount == |connects|
    && b.totalCount + b.connectingCount <= b.maxConnections
    && |b.idleConnections| <= b.maxIdle && Distinct(b.idleConnections)
  }

  /** The idle entries of the buckets are the connections that are placed there, each in one bucket. */
  ghost predicate IdleAgree(buckets: map<string, Bucket>, holder: map<Connection, Place>) {
    && (forall k, c :: k in buckets && c in buckets[k].idleConnections ==> c in holder && holder[c] == Idle(k))
    && (forall c :: c in holder && holder[c].Idle? ==>
          holder[c].key in buckets && c in buckets[holder[c].key].idleConnections)
  }

  ghost predicate CountsAgree(buckets: map<string, Bucket>, leasesIn: map<string, set<UpstreamLease>>,
                              connectsIn: map<string, set<nat>>) {
    && leasesIn.Keys == buckets.Keys && connectsIn.Keys == buckets.Keys
    && forall k :: k in buckets ==> BucketOk(buckets[k], leasesIn[k], connectsIn[k])
  }

  function WithoutIdle(b: Bucket, index: nat): Bucket
    requires index < |b.idleConnections|
  {
    b.(totalCount := b.totalCount - 1, idleConnections := Without(b.idleConnections, index))
  }

  /** One connection left the idle entries of a bucket, and its place with them. */
  lemma IdleRemoved(buckets: map<string, Bucket>, holder: map<Connection, Place>, key: string, index: nat,
                    b: Bucket, after: map<Connection, Place>)
    requires IdleAgree(buckets, holder) && key in buckets && index < |buckets[key].idleConnections|
    requires Distinct(buckets[key].idleConnections)
    requires b.idleConnections == Without(buckets[key].idleConnections, index)
    requires var c := buckets[key].idleConnections[index];
      (c in after ==> after[c].Leased?) && after - {c} == holder - {c}
    ensures IdleAgree(buckets[key := b], after)
  {
    hide Without, Distinct;
    var c := buckets[key].idleConnections[index];
    assert c in buckets[key].idleConnections;
    WithoutElements(buckets[key].idleConnections, index);
    Elsewhere(holder, after, c);
  }

  lemma Elsewhere(holder: map<Connection, Place>, after: map<Connection, Place>, c: Connection)
    requires after - {c} == holder - {c}
    ensures forall x :: x != c ==> (x in after <==> x in holder)
    ensures forall x :: x != c && x in holder ==> after[x] == holder[x]
  {
    forall x | x != c ensures (x in after <==> x in holder) && (x in holder ==> after[x] == holder[x]) {
      assert x in after - {c} <==> x in holder - {c};
      assert x in holder ==> (after - {c})[x] == (holder - {c})[x];
    }
  }

  lemma IdleAdded(buckets: map<string, Bucket>, holder: map<Connection, Place>, key: string, b: Bucket)
    requires IdleAgree(buckets, holder) && key !in buckets && b.idleConnections == []
    ensures IdleAgree(buckets[key := b], holder)
  {
  }

  lemma BucketWithoutIdle(b: Bucket, index: nat, leases: set<UpstreamLease>, connects: set<nat>)
    requires BucketOk(b, leases, connects) && index < |b.idleConnections|
    ensures BucketOk(WithoutIdle(b, index), leases, connects)
  {
    WithoutElements(b.idleConnections, index);
  }

  lemma BucketLeased(b: Bucket, leases: set<UpstreamLease>, connects: set<nat>, lease: UpstreamLease)
    requires BucketOk(b, leases, connects) && b.idleConnections != [] && lease !in leases
    ensures BucketOk(b.(leasedCount := b.leasedCount + 1, idleConnections := b.idleConnections[1..]),
                     leases + {lease}, connects)
  {
  }

  lemma BucketReturned(b: Bucket, leases: set<UpstreamLease>, connects: set<nat>, lease: UpstreamLease, c: Connection)
    requires BucketOk(b, leases, connects) && lease in leases
    ensures b.leasedCount > 0 && b.totalCount > 0
    ensures BucketOk(b.(leasedCount := b.leasedCount - 1, totalCount := b.totalCount - 1), leases - {lease}, connects)
    ensures c !in b.idleConnections && |b.idleConnections| < b.maxIdle ==>
      BucketOk(b.(leasedCount := b.leasedCount - 1, idleConnections := b.idleConnections + [c]), leases - {lease}, connects)
  {
    assert leases == leases - {lease} + {lease};
  }

  lemma BucketReserved(b: Bucket, leases: set<UpstreamLease>, connects: set<nat>, id: nat)
    requires BucketOk(b, leases, connects) && id !in connects
    requires b.totalCount + b.connectingCount < b.maxConnections
    ensures BucketOk(b.(connectingCount := b.connectingCount + 1), leases, connects + {id})
  {
  }

  /** A connect that ended: it may have become a lease. */
  lemma BucketResumed(b: Bucket, leases: set<UpstreamLease>, connects: set<nat>, id: nat, lease: UpstreamLease)
    requires BucketOk(b, leases, connects) && id in connects && lease !in leases
    ensures b.connectingCount > 0
    ensures BucketOk(b.(connectingCount := b.connectingCount - 1), leases, connects - {id})
    ensures BucketOk(b.(connectingCount := b.connectingCount - 1, totalCount := b.totalCount + 1,
                        leasedCount := b.leasedCount + 1), leases + {lease}, connects - {id})
  {
    assert connects == connects - {id} + {id};
  }

  /** The idle entries of no bucket change, and neither does who is idle. */
  lemma IdleSame(buckets: map<string, Bucket>, holder: map<Connection, Place>, key: string, c: Connection,
                 b: Bucket, after: map<Connection, Place>)
    requires IdleAgree(buckets, holder) && key in buckets && (c in holder ==> holder[c].Leased?)
    requires b.idleConnections == buckets[key].idleConnections
    requires (c in after ==> after[c].Leased?) && after - {c} == holder - {c}
    ensures IdleAgree(buckets[key := b], after)
  {
    Elsewhere(holder, after, c);
  }

  lemma IdleEntriesSame(buckets: map<string, Bucket>, holder: map<Connection, Place>, key: string, b: Bucket)
    requires IdleAgree(buckets, holder) && key in buckets && b.idleConnections == buckets[key].idleConnections
    ensures IdleAgree(buckets[key := b], holder)
  {
  }

  lemma IdleReturned(buckets: map<string, Bucket>, holder: map<Connection, Place>, key: string, c: Connection, b: Bucket)
    requires IdleAgree(buckets, holder) && key in buckets && c in holder && holder[c].Leased?
    requires b.idleConnections == buckets[key].idleConnections + [c]
    ensures c !in buckets[key].idleConnections
    ensures IdleAgree(buckets[key := b], holder[c := Idle(key)])
  {
  }

  function Kept(s: seq<Connection>, gone: set<Connection>): seq<Connection> {
    if s == [] then [] else (if s[0] in gone then [] else [s[0]]) + Kept(s[1..], gone)
  }

  lemma {:induction false} KeptSkips(s: seq<Connection>, gone: set<Connection>, i: nat)
    requires i < |s| && s[i] in gone
    ensures Kept(Without(s, i), gone) == Kept(s, gone)
  {
    if i == 0 {
      assert Without(s, 0) == s[1..];
    } else {
      KeptSkips(s[1..], gone, i - 1);
      assert Without(s, i)[0] == s[0] && Without(s, i)[1..] == Without(s[1..], i - 1);
    }
  }

  lemma {:induction false} KeptAll(s: seq<Connection>, gone: set<Connection>)
    requires forall c :: c in s ==> c !in gone
    ensures Kept(s, gone) == s
  {
    if s != [] {
      KeptAll(s[1..], gone);
    }
  }

  /** A bucket after the entries that are disconnected or have waited too long went. */
  function Pruned(b: Bucket, gone: set<Connection>): Bucket {
    var idle := Kept(b.idleConnections, gone);
    b.(totalCount := b.totalCount - (|b.idleConnections| - |idle|), idleConnections := idle)
  }

  /** Pruning takes out exactly the connections that are gone, and keeps the order of the others. */
  lemma {:induction false} KeptExactly(s: seq<Connection>, gone: set<Connection>)
    ensures forall c :: c in Kept(s, gone) <==> c in s && c !in gone
    ensures Distinct(s) ==> Distinct(Kept(s, gone))
    ensures forall n :: 0 <= n <= |s| ==> Kept(s[..n], gone) <= Kept(s, gone)
  {
    if s != [] {
      var rest := s[1..];
      KeptExactly(rest, gone);
      assert s == [s[0]] + rest;
      forall n | 0 < n <= |s| ensures Kept(s[..n], gone) <= Kept(s, gone) {
        assert s[..n][1..] == rest[..n - 1];
      }
    }
  }

  lemma PruneSkips(b: Bucket, gone: set<Connection>, i: nat)
    requires i < |b.idleConnections| && b.idleConnections[i] in gone && Distinct(b.idleConnections)
    ensures Pruned(WithoutIdle(b, i), gone) == Pruned(b, gone)
    ensures var idle := WithoutIdle(b, i).idleConnections;
      && |idle| == |b.idleConnections| - 1 && idle[..i] == b.idleConnections[..i]
      && forall c :: c in b.idleConnections ==> c in idle || c == b.idleConnections[i]
  {
    KeptSkips(b.idleConnections, gone, i);
    WithoutElements(b.idleConnections, i);
  }

  lemma PruneDone(b: Bucket, gone: set<Connection>)
    requires forall i :: 0 <= i < |b.idleConnections| ==> b.idleConnections[i] !in gone
    ensures Pruned(b, gone) == b
  {
    KeptAll(b.idleConnections, gone);
  }

  lemma SameElsewhere(m: map<string, Bucket>, n: map<string, Bucket>, key: string, b: Bucket, other: Bucket)
    requires m[key := b] == n[key := b]
    ensures m[key := other] == n[key := other]
  {
    assert m[key := other] == m[key := b][key := other] && n[key := other] == n[key := b][key := other];
  }

  lemma CountsChanged(buckets: map<string, Bucket>, leasesIn: map<string, set<UpstreamLease>>,
                      connectsIn: map<string, set<nat>>, key: string,
                      b: Bucket, leases: set<UpstreamLease>, connects: set<nat>)
    requires CountsAgree(buckets, leasesIn, connectsIn) && BucketOk(b, leases, connects)
    ensures CountsAgree(buckets[key := b], leasesIn[key := leases], connectsIn[key := connects])
  {
  }

  lemma SameEntry<V>(m: map<string, V>, key: string)
    requires key in m
    ensures m[key := m[key]] == m
  {
  }

  /** The connects in flight are those that the buckets know, each under one key. */
  ghost predicate ConnectsAgree(connecting: map<nat, string>, connectsIn: map<string, set<nat>>, next: nat) {
    && (forall id :: id in connecting ==> connecting[id] in connectsIn && id in connectsIn[connecting[id]])
    && (forall k, id :: k in connectsIn && id in connectsIn[k] ==> id in connecting && connecting[id] == k)
    && (forall id :: id in connecting ==> id < next)
  }

  lemma ConnectsAtNewKey(connecting: map<nat, string>, connectsIn: map<string, set<nat>>, next: nat, key: string)
    requires ConnectsAgree(connecting, connectsIn, next) && key !in connectsIn
    ensures ConnectsAgree(connecting, connectsIn[key := {}], next)
  {
  }

  lemma ConnectBegins(connecting: map<nat, string>, connectsIn: map<string, set<nat>>, next: nat, key: string)
    requires ConnectsAgree(connecting, connectsIn, next) && key in connectsIn
    ensures next !in connecting && next !in connectsIn[key]
    ensures ConnectsAgree(connecting[next := key], connectsIn[key := connectsIn[key] + {next}], next + 1)
  {
  }

  lemma ConnectEnds(connecting: map<nat, string>, connectsIn: map<string, set<nat>>, next: nat, id: nat)
    requires ConnectsAgree(connecting, connectsIn, next) && id in connecting
    ensures connecting[id] in connectsIn && id in connectsIn[connecting[id]]
    ensures var key := connecting[id];
      ConnectsAgree(connecting - {id}, connectsIn[key := connectsIn[key] - {id}], next)
  {
  }

  class UpstreamLease {
    var pool: UpstreamPool?
    var bucketKey: string
    var connection: Connection?
    var reusable: bool

    constructor (pool: UpstreamPool, bucketKey: string, connection: Connection)
      ensures this.pool == pool && this.bucketKey == bucketKey && this.connection == connection && !reusable
    {
      this.pool, this.bucketKey, this.connection, reusable := pool, bucketKey, connection, false;
    }

    /** Either empty or a live lease of this pool. */
    ghost predicate BelongsTo(p: UpstreamPool)
      reads this`pool, p`live
    {
      (pool == null && this !in p.live) || (pool == p && this in p.live)
    }

    /** Only a lease that still holds a connection can be marked. */
    method MarkReusable()
      modifies this`reusable
      ensures reusable == ((pool != null && connection != null) || old(reusable))
    {
      if pool != null && connection != null {
        reusable := true;
      }
    }

    /** The destructor: an empty lease has nothing to give back. */
    method Destroy(ghost p: UpstreamPool, connected: bool)
      requires p.Valid() && BelongsTo(p)
      modifies p`buckets, p`live, p`leasesIn, p`holder, this
      modifies if pool != null && connection != null then {connection} else {}
      ensures p.Valid() && p.live == old(p.live) - {this} && pool == null
      ensures old(pool) == null ==> unchanged(p) && unchanged(this)
      ensures old(pool) != null ==>
        p.Returned(old(bucketKey), old(connection), old(reusable) && connected, old(p.buckets), old(p.holder))
    {
      hide UpstreamPool.Valid;
      if pool != null {
        pool.Release(this, connected);
      }
    }

    /** Move assignment: gives back what it holds to its pool and takes over what the other one holds
    from the other one's pool. Assigning a lease to itself changes nothing. */
    method MoveAssign(other: UpstreamLease, ghost p: UpstreamPool, ghost q: UpstreamPool, connected: bool)
      requires p.Valid() && q.Valid() && BelongsTo(p) && other.BelongsTo(q)
      requires p != q ==> this !in q.live && other !in p.live && p.holder.Keys !! q.holder.Keys
      modifies p`buckets, p`live, p`leasesIn, p`holder, q`live, q`leasesIn, q`holder, this, other
      modifies if pool != null && connection != null then {connection} else {}
      ensures p.Valid() && q.Valid() && BelongsTo(q) && other.BelongsTo(q)
      ensures p != q && this != other ==> this !in p.live && other !in p.live && q.buckets == old(q.buckets)
      ensures this == other ==> unchanged(p) && unchanged(q) && unchanged(this)
      ensures this != other ==> other.pool == null && pool == old(other.pool)
      ensures this != other && old(pool) != null ==>
        p.CountedBack(old(bucketKey), old(connection), old(reusable) && connected, old(p.buckets))
      ensures this != other && old(other.pool) != null ==>
        connection == old(other.connection) && bucketKey == old(other.bucketKey) && reusable == old(other.reusable)
    {
      hide UpstreamPool.Valid;
      if this == other {
        return;
      }
      if pool != null {
        p.HolderOf(this);
      }
      Destroy(p, connected);
      if other.pool != null {
        other.pool.TakeOver(this, other);
      }
    }
  }

  class UpstreamPool {
    var accepting: bool
    var buckets: map<string, Bucket>
    /** The connects in flight, by their controls. */
    var connecting: map<nat, string>
    var nextConnectionId: nat
    ghost var live: set<UpstreamLease>
    ghost var leasesIn: map<string, set<UpstreamLease>>
    ghost var connectsIn: map<string, set<nat>>
    ghost var holder: map<Connection, Place>

    ghost predicate CountsOk()
      reads this`buckets, this`leasesIn, this`connectsIn
    {
      CountsAgree(buckets, leasesIn, connectsIn)
    }

    ghost predicate ConnectsOk()
      reads this`connecting, this`connectsIn, this`nextConnectionId
    {
      ConnectsAgree(connecting, connectsIn, nextConnectionId)
    }

    ghost predicate IdleOk()
      reads this`buckets, this`holder
    {
      IdleAgree(buckets, holder)
    }

    /** A live lease belongs to the pool and holds a connection of its own. */
    ghost predicate LeaseOk(l: UpstreamLease)
      reads this`leasesIn, this`holder, l
    {
      && l.pool == this && l.bucketKey in leasesIn && l in leasesIn[l.bucketKey]
      && l.connection != null && l.connection in holder && holder[l.connection] == Leased(l)
    }

    ghost predicate LeasesOk()
      reads this`live, this`leasesIn, this`holder, live
    {
      && (forall l :: l in live ==> LeaseOk(l))
      && (forall k, l :: k in leasesIn && l in leasesIn[k] ==> l in live && l.bucketKey == k)
      && (forall c :: c in holder && holder[c].Leased? ==> holder[c].lease in live && holder[c].lease.connection == c)
    }

    /** What the pool knows has not been destroyed. */
    ghost predicate OpenOk()
      reads this`holder, holder.Keys
    {
      forall c :: c in holder ==> c.open
    }

    ghost predicate Valid()
      reads this, holder.Keys, live
    {
      CountsOk() && ConnectsOk() && IdleOk() && LeasesOk() && OpenOk()
    }

    constructor ()
      ensures Valid() && accepting && buckets == map[] && connecting == map[] && live == {} && holder == map[]
    {
      accepting, buckets, connecting, nextConnectionId := true, map[], map[], 1;
      live, leasesIn, connectsIn, holder := {}, map[], map[], map[];
    }

    method BucketFor(route: Route, endpoint: Endpoint) returns (key: string)
      requires Valid()
      modifies this`buckets, this`leasesIn, this`connectsIn
      ensures Valid() && key == MakeBucketKey(route.name, endpoint) && key in buckets
      ensures buckets == if key in old(buckets) then old(buckets) else
        old(buckets)[key := Bucket(0, 0, 0, route.maxConnectionsPerWorker, route.maxIdlePerWorker, [])]
    {
      hide MakeBucketKey;
      key := MakeBucketKey(route.name, endpoint);
      if key !in buckets {
        AddBucket(key, Bucket(0, 0, 0, route.maxConnectionsPerWorker, route.maxIdlePerWorker, []));
      }
    }

    method AddBucket(key: string, b: Bucket)
      requires Valid() && key !in buckets && BucketOk(b, {}, {}) && b.idleConnections == []
      modifies this`buckets, this`leasesIn, this`connectsIn
      ensures Valid() && buckets == old(buckets)[key := b]
    {
      hide CountsAgree, IdleAgree, ConnectsAgree, BucketOk, LeasesOk, OpenOk;
      CountsChanged(buckets, leasesIn, connectsIn, key, b, {}, {});
      IdleAdded(buckets, holder, key, b);
      NewKey(key);
      ConnectsAtNewKey(connecting, connectsIn, nextConnectionId, key);
      AddKey(key);
      buckets, connectsIn := buckets[key := b], connectsIn[key := {}];
    }

    lemma NewKey(key: string)
      requires CountsOk() && key !in buckets
      ensures key !in leasesIn && key !in connectsIn
    {
    }

    ghost method AddKey(key: string)
      requires LeasesOk() && key !in leasesIn
      modifies this`leasesIn
      ensures LeasesOk() && leasesIn == old(leasesIn)[key := {}]
    {
      leasesIn := leasesIn[key := {}];
    }

    /** An idle connection leaves its bucket and is destroyed. */
    method DiscardIdle(key: string, index: nat, connection: Connection)
      requires Valid() && key in buckets && index < |buckets[key].idleConnections|
      requires buckets[key].idleConnections[index] == connection
      modifies this`buckets, this`holder, connection`open
      ensures Valid() && !connection.open && holder == old(holder) - {connection}
      ensures buckets == old(buckets)[key := WithoutIdle(old(buckets[key]), index)]
    {
      hide CountsAgree, IdleAgree, ConnectsAgree, LeasesOk, WithoutIdle;
      RemoveIdle(key, index, connection);
      connection.open := false;
    }

    method RemoveIdle(key: string, index: nat, connection: Connection)
      requires Valid() && key in buckets && index < |buckets[key].idleConnections|
      requires buckets[key].idleConnections[index] == connection
      modifies this`buckets, this`holder
      ensures Valid() && holder == old(holder) - {connection} && connection in old(holder)
      ensures buckets == old(buckets)[key := WithoutIdle(old(buckets[key]), index)]
    {
      hide IdleAgree, ConnectsAgree, CountsAgree, BucketOk, LeasesOk, OpenOk;
      var bucket := buckets[key];
      PlaceOfIdle(key, index);
      BucketAt(key);
      IdleRemoved(buckets, holder, key, index, WithoutIdle(bucket, index), holder - {connection});
      BucketWithoutIdle(bucket, index, leasesIn[key], connectsIn[key]);
      assert bucket.totalCount > 0;
      SetBucket(key, bucket.(totalCount := bucket.totalCount - 1,
                             idleConnections := Without(bucket.idleConnections, index)));
      DropPlace(connection);
    }

    lemma BucketAt(key: string)
      requires CountsOk() && key in buckets
      ensures key in leasesIn && key in connectsIn && BucketOk(buckets[key], leasesIn[key], connectsIn[key])
      ensures var b := buckets[key]; Distinct(b.idleConnections) && b.totalCount >= |b.idleConnections|
    {
    }

    ghost method DropPlace(connection: Connection)
      requires LeasesOk() && OpenOk() && connection in holder && holder[connection].Idle?
      modifies this`holder
      ensures LeasesOk() && OpenOk() && holder == old(holder) - {connection}
    {
      holder := holder - {connection};
    }

    lemma PlaceOfIdle(key: string, index: nat)
      requires IdleOk() && key in buckets && index < |buckets[key].idleConnections|
      ensures var c := buckets[key].idleConnections[index]; c in holder && holder[c] == Idle(key)
    {
      assert buckets[key].idleConnections[index] in buckets[key].idleConnections;
    }

    /** New counters for a bucket whose leases and connects stay. */
    method SetBucket(key: string, b: Bucket)
      requires CountsOk() && key in buckets && key in leasesIn && key in connectsIn
      requires BucketOk(b, leasesIn[key], connectsIn[key])
      modifies this`buckets
      ensures CountsOk() && buckets == old(buckets)[key := b]
    {
      hide CountsAgree, BucketOk;
      CountsChanged(buckets, leasesIn, connectsIn, key, b, leasesIn[key], connectsIn[key]);
      SameEntry(leasesIn, key);
      SameEntry(connectsIn, key);
      buckets := buckets[key := b];
    }

    /** A new lease takes a connection that no other lease has. */
    ghost method AddLease(key: string, lease: UpstreamLease, connection: Connection)
      requires LeasesOk() && OpenOk() && key in leasesIn && lease !in live && connection.open
      requires lease.pool == this && lease.bucketKey == key && lease.connection == connection
      requires connection in holder ==> holder[connection].Idle?
      modifies this`live, this`leasesIn, this`holder
      ensures LeasesOk() && OpenOk() && live == old(live) + {lease}
      ensures leasesIn == old(leasesIn)[key := old(leasesIn[key]) + {lease}]
      ensures holder == old(holder)[connection := Leased(lease)]
    {
      live, holder := live + {lease}, holder[connection := Leased(lease)];
      leasesIn := leasesIn[key := leasesIn[key] + {lease}];
    }

    lemma NotYetLive(key: string, lease: UpstreamLease, connection: Connection)
      requires LeasesOk() && OpenOk() && key in leasesIn && lease !in live && connection in holder
      ensures lease !in leasesIn[key] && connection.open
    {
    }

    /** Reuses the idle connection that has waited longest. */
    method LeaseIdle(key: string) returns (lease: UpstreamLease)
      requires Valid() && key in buckets && buckets[key].idleConnections != []
      modifies this`buckets, this`live, this`leasesIn, this`holder
      ensures Valid() && fresh(lease) && live == old(live) + {lease}
      ensures var b := old(buckets[key]);
        && buckets == old(buckets)[key := b.(leasedCount := b.leasedCount + 1, idleConnections := b.idleConnections[1..])]
        && holder == old(holder)[b.idleConnections[0] := Leased(lease)]
    {
      hide IdleAgree, ConnectsAgree, CountsAgree, BucketOk, LeasesOk, OpenOk;
      var bucket := buckets[key];
      var connection := bucket.idleConnections[0];
      PlaceOfIdle(key, 0);
      BucketAt(key);
      lease := new UpstreamLease(this, key, connection);
      NotYetLive(key, lease, connection);
      var leased := bucket.(leasedCount := bucket.leasedCount + 1, idleConnections := bucket.idleConnections[1..]);
      assert Without(bucket.idleConnections, 0) == bucket.idleConnections[1..];
      IdleRemoved(buckets, holder, key, 0, leased, holder[connection := Leased(lease)]);
      BucketLeased(bucket, leasesIn[key], connectsIn[key], lease);
      CountsChanged(buckets, leasesIn, connectsIn, key, leased, leasesIn[key] + {lease}, connectsIn[key]);
      SameEntry(connectsIn, key);
      buckets := buckets[key := leased];
      AddLease(key, lease, connection);
    }

    /** Erases the entries that are gone while walking over the others. */
    method PruneIdle(key: string, gone: set<Connection>)
      requires Valid() && key in buckets
      modifies this`buckets, this`holder, gone`open
      ensures Valid() && buckets == old(buckets)[key := Pruned(old(buckets[key]), gone)]
      ensures forall c :: c in old(buckets[key]).idleConnections && c in gone ==> !c.open
    {
      hide CountsAgree, IdleAgree, ConnectsAgree, LeasesOk, OpenOk, Pruned, WithoutIdle;
      var position := 0;
      while position < |buckets[key].idleConnections|
        invariant Valid() && key in buckets && position <= |buckets[key].idleConnections|
        invariant buckets == old(buckets)[key := buckets[key]]
        invariant Pruned(buckets[key], gone) == Pruned(old(buckets[key]), gone)
        invariant forall c :: c in buckets[key].idleConnections[..position] ==> c !in gone
        invariant forall c :: c in old(buckets[key]).idleConnections && c in gone ==>
          c in buckets[key].idleConnections || !c.open
        decreases |buckets[key].idleConnections| - position
      {
        var connection := buckets[key].idleConnections[position];
        if connection in gone {
          BucketAt(key);
          PruneSkips(buckets[key], gone, position);
          DiscardIdle(key, position, connection);
        } else {
          position := position + 1;
        }
      }
      PruneDone(buckets[key], gone);
    }

    /** Room for one more connection is reserved before the connect suspends. */
    method ReserveConnect(key: string) returns (id: nat)
      requires Valid() && key in buckets
      requires buckets[key].totalCount + buckets[key].connectingCount < buckets[key].maxConnections
      modifies this`buckets, this`connecting, this`connectsIn, this`nextConnectionId
      ensures Valid() && id !in old(connecting) && connecting == old(connecting)[id := key]
      ensures var b := old(buckets[key]); buckets == old(buckets)[key := b.(connectingCount := b.connectingCount + 1)]
    {
      hide CountsAgree, IdleAgree, ConnectsAgree, BucketOk, LeasesOk, OpenOk;
      var bucket := buckets[key];
      id := nextConnectionId;
      BucketAt(key);
      ConnectBegins(connecting, connectsIn, nextConnectionId, key);
      BucketReserved(bucket, leasesIn[key], connectsIn[key], id);
      ReserveBucket(key, bucket.(connectingCount := bucket.connectingCount + 1), connectsIn[key] + {id});
      nextConnectionId := nextConnectionId + 1;
      connecting := connecting[id := key];
    }

    method ReserveBucket(key: string, b: Bucket, ghost connects: set<nat>)
      requires CountsOk() && IdleOk() && key in buckets && key in leasesIn && BucketOk(b, leasesIn[key], connects)
      requires b.idleConnections == buckets[key].idleConnections
      modifies this`buckets, this`connectsIn
      ensures CountsOk() && IdleOk() && buckets == old(buckets)[key := b]
      ensures connectsIn == old(connectsIn)[key := connects]
    {
      hide BucketOk, CountsAgree, IdleAgree;
      CountsChanged(buckets, leasesIn, connectsIn, key, b, leasesIn[key], connects);
      SameEntry(leasesIn, key);
      IdleEntriesSame(buckets, holder, key, b);
      buckets, connectsIn := buckets[key := b], connectsIn[key := connects];
    }

    /** Acquires a connection, as far as that goes without waiting: the errors in order, an idle
    connection that is still good, or a reserved connect. */
    method Acquire(route: Route, endpoint: Endpoint, inLoopThread: bool, expired: bool, gone: set<Connection>)
      returns (r: Acquisition)
      requires Valid()
      modifies this`buckets, this`live, this`leasesIn, this`holder, this`connecting, this`connectsIn
      modifies this`nextConnectionId, gone`open
      ensures Valid()
      ensures !inLoopThread ==> r == Refused(Error(System, EPERM))
      ensures inLoopThread && !accepting ==> r == Refused(Error(Cancelled, ECANCELED))
      ensures inLoopThread && accepting && expired ==> r == Refused(Error(TimedOut, ETIMEDOUT))
      ensures !inLoopThread || !accepting || expired ==> unchanged(this)
      ensures inLoopThread && accepting && !expired ==> Acquired(r, route, endpoint, gone, old(buckets), old(live), old(connecting))
    {
      if !inLoopThread {
        return Refused(Error(System, EPERM));
      }
      if !accepting {
        return Refused(Error(Cancelled, ECANCELED));
      }
      if expired {
        return Refused(Error(TimedOut, ETIMEDOUT));
      }
      r := AcquireNow(route, endpoint, gone);
    }

    method AcquireNow(route: Route, endpoint: Endpoint, gone: set<Connection>) returns (r: Acquisition)
      requires Valid()
      modifies this`buckets, this`live, this`leasesIn, this`holder, this`connecting, this`connectsIn
      modifies this`nextConnectionId, gone`open
      ensures Valid() && Acquired(r, route, endpoint, gone, old(buckets), old(live), old(connecting))
    {
      hide CountsOk, IdleOk, ConnectsOk, LeasesOk, OpenOk, MakeBucketKey, Pruned, Taken;
      ghost var before := buckets;
      var key := BucketFor(route, endpoint);
      PruneIdle(key, gone);
      ghost var mid := buckets;
      r := Take(key);
      TakenElsewhere(r, key, mid[key], mid, before, old(live), old(connecting));
    }

    lemma TakenElsewhere(r: Acquisition, key: string, b: Bucket, mid: map<string, Bucket>, before: map<string, Bucket>,
                         wasLive: set<UpstreamLease>, wasConnecting: map<nat, string>)
      requires Taken(r, key, b, mid, wasLive, wasConnecting) && mid[key := b] == before[key := b]
      ensures Taken(r, key, b, before, wasLive, wasConnecting)
    {
      if b.idleConnections != [] {
        SameElsewhere(mid, before, key, b, b.(leasedCount := b.leasedCount + 1, idleConnections := b.idleConnections[1..]));
      } else if b.totalCount + b.connectingCount < b.maxConnections {
        SameElsewhere(mid, before, key, b, b.(connectingCount := b.connectingCount + 1));
      }
    }

    /** What an acquisition does to the bucket of the route: nothing but pruning when it is at its limit. */
    ghost predicate Acquired(r: Acquisition, route: Route, endpoint: Endpoint, gone: set<Connection>,
                             before: map<string, Bucket>, wasLive: set<UpstreamLease>, wasConnecting: map<nat, string>)
      reads this
    {
      var key := MakeBucketKey(route.name, endpoint);
      var empty := Bucket(0, 0, 0, route.maxConnectionsPerWorker, route.maxIdlePerWorker, []);
      var b := Pruned(if key in before then before[key] else empty, gone);
      Taken(r, key, b, before, wasLive, wasConnecting)
    }

    ghost predicate Taken(r: Acquisition, key: string, b: Bucket, before: map<string, Bucket>,
                          wasLive: set<UpstreamLease>, wasConnecting: map<nat, string>)
      reads this
    {
      if b.idleConnections != [] then
        && r.Reused? && r.lease !in wasLive && live == wasLive + {r.lease} && connecting == wasConnecting
        && b.idleConnections[0] in holder && holder[b.idleConnections[0]] == Leased(r.lease)
        && buckets == before[key := b.(leasedCount := b.leasedCount + 1, idleConnections := b.idleConnections[1..])]
      else if b.totalCount + b.connectingCount >= b.maxConnections then
        && r == Refused(Error(ResourceExhausted, EAGAIN)) && buckets == before[key := b]
        && live == wasLive && connecting == wasConnecting
      else
        && r.Suspended? && r.id !in wasConnecting && connecting == wasConnecting[r.id := key] && live == wasLive
        && buckets == before[key := b.(connectingCount := b.connectingCount + 1)]
    }

    /** Which of the three it is: a connection is reused exactly when one is idle that is still good; without one
    the capacity error comes exactly when leases and suspended connects fill the limit. */
    lemma WhatIsAcquired(r: Acquisition, route: Route, endpoint: Endpoint, gone: set<Connection>,
                         before: map<string, Bucket>, wasLive: set<UpstreamLease>, wasConnecting: map<nat, string>)
      requires Acquired(r, route, endpoint, gone, before, wasLive, wasConnecting)
      requires forall k :: k in before ==> before[k].totalCount == before[k].leasedCount + |before[k].idleConnections|
      ensures var key := MakeBucketKey(route.name, endpoint);
        var good := key in before && exists c :: c in before[key].idleConnections && c !in gone;
        var taken := if key in before then before[key].leasedCount + before[key].connectingCount else 0;
        var limit := if key in before then before[key].maxConnections else route.maxConnectionsPerWorker;
        && (r.Reused? <==> good)
        && (r == Refused(Error(ResourceExhausted, 11)) <==> !good && taken >= limit)
        && (r.Suspended? <==> !good && taken < limit)
        && (r.Reused? || r.Suspended? || r == Refused(Error(ResourceExhausted, 11)))
    {
      hide MakeBucketKey, Kept;
      var key := MakeBucketKey(route.name, endpoint);
      var idle := if key in before then before[key].idleConnections else [];
      KeptExactly(idle, gone);
      assert Kept(idle, gone) != [] <==> exists c :: c in idle && c !in gone by {
        if Kept(idle, gone) != [] {
          assert Kept(idle, gone)[0] in Kept(idle, gone);
        }
      }
    }

    method Take(key: string) returns (r: Acquisition)
      requires Valid() && key in buckets
      modifies this`buckets, this`live, this`leasesIn, this`holder, this`connecting, this`connectsIn, this`nextConnectionId
      ensures Valid() && Taken(r, key, old(buckets[key]), old(buckets), old(live), old(connecting))
    {
      hide CountsOk, IdleOk, ConnectsOk, LeasesOk, OpenOk;
      var bucket := buckets[key];
      if bucket.idleConnections != [] {
        var lease := LeaseIdle(key);
        return Reused(lease);
      }
      if bucket.totalCount + bucket.connectingCount >= bucket.maxConnections {
        assert buckets[key := bucket] == buckets;
        return Refused(Error(ResourceExhausted, EAGAIN));
      }
      var id := ReserveConnect(key);
      return Suspended(id);
    }

    /** The reservation ends with the connect; a new connection is leased at once. */
    method ResumeConnect(id: nat, connected: Result<Connection, Error>) returns (r: Result<UpstreamLease, Error>)
      requires Valid() && id in connecting
      requires connected.Success? ==> connected.value.open && connected.value !in holder
      modifies this`buckets, this`connecting, this`connectsIn, this`live, this`leasesIn, this`holder
      ensures Valid() && connecting == old(connecting) - {id} && old(connecting[id]) in old(buckets)
      ensures var key, b := old(connecting[id]), old(buckets[connecting[id]]);
        match connected
        case Failure(e) =>
          && r == Failure(e) && live == old(live) && holder == old(holder)
          && buckets == old(buckets)[key := b.(connectingCount := b.connectingCount - 1)]
        case Success(c) =>
          && r.Success? && r.value !in old(live) && live == old(live) + {r.value}
          && holder == old(holder)[c := Leased(r.value)]
          && buckets == old(buckets)[key := b.(connectingCount := b.connectingCount - 1,
                                              totalCount := b.totalCount + 1, leasedCount := b.leasedCount + 1)]
    {
      hide CountsAgree, IdleAgree, BucketOk, LeasesOk, OpenOk;
      var key := connecting[id];
      KeyOfConnect(id);
      if connected.Failure? {
        EndConnect(id, key);
        return Failure(connected.error);
      }
      var lease := new UpstreamLease(this, key, connected.value);
      LeaseConnected(id, key, lease, connected.value);
      return Success(lease);
    }

    lemma KeyOfConnect(id: nat)
      requires CountsOk() && ConnectsOk() && id in connecting
      ensures connecting[id] in buckets && connecting[id] in connectsIn && connecting[id] in leasesIn
      ensures id in connectsIn[connecting[id]]
    {
    }

    method EndConnect(id: nat, key: string)
      requires Valid() && id in connecting && connecting[id] == key && key in buckets
      modifies this`buckets, this`connecting, this`connectsIn
      ensures Valid() && connecting == old(connecting) - {id}
      ensures var b := old(buckets[key]); buckets == old(buckets)[key := b.(connectingCount := b.connectingCount - 1)]
    {
      hide CountsAgree, IdleAgree, ConnectsAgree, BucketOk, LeasesOk, OpenOk;
      var bucket := buckets[key];
      BucketAt(key);
      ConnectEnds(connecting, connectsIn, nextConnectionId, id);
      Released(bucket, key, id);
      assert bucket.connectingCount > 0;
      ReserveBucket(key, bucket.(connectingCount := bucket.connectingCount - 1), connectsIn[key] - {id});
      connecting := connecting - {id};
    }

    lemma Released(b: Bucket, key: string, id: nat)
      requires key in leasesIn && key in connectsIn
      requires BucketOk(b, leasesIn[key], connectsIn[key]) && id in connectsIn[key]
      ensures b.connectingCount > 0
      ensures BucketOk(b.(connectingCount := b.connectingCount - 1), leasesIn[key], connectsIn[key] - {id})
    {
      assert connectsIn[key] == connectsIn[key] - {id} + {id};
    }

    /** Counters, connects and idle entries agree when a connect has become a lease. */
    lemma ConnectLeased(id: nat, key: string, leased: Bucket, lease: UpstreamLease, connection: Connection)
      requires CountsOk() && ConnectsOk() && IdleOk() && id in connecting && connecting[id] == key && key in buckets
      requires key in leasesIn && key in connectsIn && lease !in leasesIn[key] && connection !in holder
      requires var b := buckets[key];
        leased == b.(connectingCount := b.connectingCount - 1, totalCount := b.totalCount + 1, leasedCount := b.leasedCount + 1)
      ensures buckets[key].connectingCount > 0
      ensures CountsAgree(buckets[key := leased], leasesIn[key := leasesIn[key] + {lease}],
                          connectsIn[key := connectsIn[key] - {id}])
      ensures ConnectsAgree(connecting - {id}, connectsIn[key := connectsIn[key] - {id}], nextConnectionId)
      ensures IdleAgree(buckets[key := leased], holder[connection := Leased(lease)])
    {
      hide CountsAgree, IdleAgree, ConnectsAgree, BucketOk;
      BucketAt(key);
      ConnectEnds(connecting, connectsIn, nextConnectionId, id);
      BucketResumed(buckets[key], leasesIn[key], connectsIn[key], id, lease);
      CountsChanged(buckets, leasesIn, connectsIn, key, leased, leasesIn[key] + {lease}, connectsIn[key] - {id});
      IdleSame(buckets, holder, key, connection, leased, holder[connection := Leased(lease)]);
    }

    method LeaseConnected(id: nat, key: string, lease: UpstreamLease, connection: Connection)
      requires Valid() && id in connecting && connecting[id] == key && key in buckets && lease !in live
      requires lease.pool == this && lease.bucketKey == key && lease.connection == connection
      requires connection.open && connection !in holder
      modifies this`buckets, this`connecting, this`connectsIn, this`live, this`leasesIn, this`holder
      ensures Valid() && connecting == old(connecting) - {id} && live == old(live) + {lease}
      ensures holder == old(holder)[connection := Leased(lease)]
      ensures var b := old(buckets[key]);
        buckets == old(buckets)[key := b.(connectingCount := b.connectingCount - 1,
                                          totalCount := b.totalCount + 1, leasedCount := b.leasedCount + 1)]
    {
      hide CountsAgree, IdleAgree, ConnectsAgree, BucketOk, LeasesOk, OpenOk;
      var bucket := buckets[key];
      KeyOfConnect(id);
      NotLeased(key, lease);
      var leased := bucket.(connectingCount := bucket.connectingCount - 1, totalCount := bucket.totalCount + 1,
                            leasedCount := bucket.leasedCount + 1);
      ConnectLeased(id, key, leased, lease, connection);
      assert bucket.connectingCount > 0;
      buckets, connectsIn := buckets[key := leased], connectsIn[key := connectsIn[key] - {id}];
      connecting := connecting - {id};
      AddLease(key, lease, connection);
    }

    lemma NotLeased(key: string, lease: UpstreamLease)
      requires LeasesOk() && key in leasesIn && lease !in live
      ensures lease !in leasesIn[key]
    {
    }

    // ---------- Leases coming back ----------

    lemma LeaseAt(lease: UpstreamLease)
      requires CountsOk() && LeasesOk() && OpenOk() && lease in live
      ensures lease.bucketKey in buckets && lease.bucketKey in leasesIn && lease.bucketKey in connectsIn
      ensures lease in leasesIn[lease.bucketKey] && lease.pool == this && lease.connection != null
      ensures lease.connection in holder && holder[lease.connection] == Leased(lease) && lease.connection.open
    {
      assert LeaseOk(lease);
    }

    lemma HolderOf(lease: UpstreamLease)
      requires Valid() && lease in live
      ensures lease.connection != null && lease.connection in holder.Keys
    {
      LeaseAt(lease);
    }

    /** A lease ends, and its connection goes to another place or to none. */
    ghost method DropLease(key: string, lease: UpstreamLease, connection: Connection, keep: bool)
      requires LeasesOk() && OpenOk() && lease in live && lease.bucketKey == key && key in leasesIn
      requires connection in holder && holder[connection] == Leased(lease)
      modifies this`live, this`leasesIn, this`holder
      ensures LeasesOk() && OpenOk() && live == old(live) - {lease}
      ensures leasesIn == old(leasesIn)[key := old(leasesIn[key]) - {lease}]
      ensures holder == if keep then old(holder)[connection := Idle(key)] else old(holder) - {connection}
    {
      assert LeaseOk(lease);
      live := live - {lease};
      holder := if keep then holder[connection := Idle(key)] else holder - {connection};
      leasesIn := leasesIn[key := leasesIn[key] - {lease}];
    }

    /** The connection waits for reuse if the session said so, it is still connected and there is room
    for it; otherwise it is destroyed. The lease is spent. */
    method Release(lease: UpstreamLease, connected: bool)
      requires Valid() && lease in live
      modifies this`buckets, this`live, this`leasesIn, this`holder, lease
      modifies if lease.connection != null then {lease.connection} else {}
      ensures Valid() && live == old(live) - {lease}
      ensures lease.pool == null && lease.connection == null && !lease.reusable
      ensures Returned(old(lease.bucketKey), old(lease.connection), old(lease.reusable) && connected,
                       old(buckets), old(holder))
    {
      hide CountsAgree, IdleAgree, BucketOk, LeasesOk, OpenOk, ConnectsAgree;
      var key := lease.bucketKey;
      LeaseAt(lease);
      var connection := lease.connection;
      if lease.reusable && connected && |buckets[key].idleConnections| < buckets[key].maxIdle {
        ReturnToIdle(key, lease, connection);
      } else {
        Discard(key, lease, connection);
        connection.open := false;
      }
      Spend(lease);
    }

    /** Where a returned connection goes and what its bucket counts then. */
    ghost predicate Returned(key: string, connection: Connection?, good: bool,
                             before: map<string, Bucket>, wasHolder: map<Connection, Place>)
      reads this`buckets, this`holder, if connection != null then {connection} else {}
    {
      && CountedBack(key, connection, good, before)
      && if good && |before[key].idleConnections| < before[key].maxIdle then holder == wasHolder[connection := Idle(key)]
         else holder == wasHolder - {connection} && !connection.open
    }

    ghost predicate CountedBack(key: string, connection: Connection?, good: bool, before: map<string, Bucket>)
      reads this`buckets
    {
      key in before && connection != null &&
      var b := before[key];
      if good && |b.idleConnections| < b.maxIdle then
        buckets == before[key := b.(leasedCount := b.leasedCount - 1, idleConnections := b.idleConnections + [connection])]
      else
        buckets == before[key := b.(leasedCount := b.leasedCount - 1, totalCount := b.totalCount - 1)]
    }

    method ReturnToIdle(key: string, lease: UpstreamLease, connection: Connection)
      requires Valid() && lease in live && lease.bucketKey == key && lease.connection == connection && key in buckets
      requires |buckets[key].idleConnections| < buckets[key].maxIdle
      modifies this`buckets, this`live, this`leasesIn, this`holder
      ensures Valid() && live == old(live) - {lease} && holder == old(holder)[connection := Idle(key)]
      ensures var b := old(buckets[key]);
        buckets == old(buckets)[key := b.(leasedCount := b.leasedCount - 1, idleConnections := b.idleConnections + [connection])]
    {
      hide CountsAgree, IdleAgree, BucketOk, LeasesOk, OpenOk, ConnectsAgree;
      var bucket := buckets[key];
      LeaseAt(lease);
      BucketAt(key);
      BucketReturned(bucket, leasesIn[key], connectsIn[key], lease, connection);
      var returned := bucket.(leasedCount := bucket.leasedCount - 1, idleConnections := bucket.idleConnections + [connection]);
      IdleReturned(buckets, holder, key, connection, returned);
      CountsChanged(buckets, leasesIn, connectsIn, key, returned, leasesIn[key] - {lease}, connectsIn[key]);
      SameEntry(connectsIn, key);
      assert bucket.leasedCount > 0 && bucket.totalCount > 0;
      buckets := buckets[key := returned];
      DropLease(key, lease, connection, true);
    }

    method Discard(key: string, lease: UpstreamLease, connection: Connection)
      requires Valid() && lease in live && lease.bucketKey == key && lease.connection == connection && key in buckets
      modifies this`buckets, this`live, this`leasesIn, this`holder
      ensures Valid() && live == old(live) - {lease}
      ensures holder == old(holder) - {connection} && connection in old(holder)
      ensures var b := old(buckets[key]);
        buckets == old(buckets)[key := b.(leasedCount := b.leasedCount - 1, totalCount := b.totalCount - 1)]
    {
      hide CountsAgree, IdleAgree, BucketOk, LeasesOk, OpenOk, ConnectsAgree;
      var bucket := buckets[key];
      LeaseAt(lease);
      BucketAt(key);
      BucketReturned(bucket, leasesIn[key], connectsIn[key], lease, connection);
      var dropped := bucket.(leasedCount := bucket.leasedCount - 1, totalCount := bucket.totalCount - 1);
      IdleSame(buckets, holder, key, connection, dropped, holder - {connection});
      CountsChanged(buckets, leasesIn, connectsIn, key, dropped, leasesIn[key] - {lease}, connectsIn[key]);
      SameEntry(connectsIn, key);
      assert bucket.leasedCount > 0 && bucket.totalCount > 0;
      buckets := buckets[key := dropped];
      DropLease(key, lease, connection, false);
    }

    /** A lease without a pool does nothing any more. */
    method Spend(lease: UpstreamLease)
      requires Valid() && lease !in live
      modifies lease
      ensures Valid() && lease.pool == null && lease.connection == null && !lease.reusable
    {
      hide CountsAgree, IdleAgree, ConnectsAgree;
      lease.connection := null;
      lease.pool := null;
      lease.bucketKey := "";
      lease.reusable := false;
    }

    /** A lease passes what it holds to an empty one. */
    method TakeOver(to: UpstreamLease, other: UpstreamLease)
      requires Valid() && other in live && to !in live && to.pool == null
      modifies this`live, this`leasesIn, this`holder, to, other
      ensures Valid() && live == old(live) - {other} + {to} && other.pool == null && to.pool == this
      ensures to.connection == old(other.connection) && to.bucketKey == old(other.bucketKey)
      ensures to.reusable == old(other.reusable) && !other.reusable
    {
      hide CountsAgree, IdleAgree, BucketOk, LeasesOk, OpenOk, ConnectsAgree;
      var key := other.bucketKey;
      LeaseAt(other);
      NotLeased(key, to);
      var connection := other.connection;
      PassedOn(key, to, other, connection);
      DropLease(key, other, connection, false);
      to.pool, to.bucketKey, to.connection, to.reusable := this, other.bucketKey, other.connection, other.reusable;
      other.pool, other.connection, other.reusable := null, null, false;
      Rejoin(key, to, connection, old(holder), old(leasesIn), other);
    }

    /** The lease takes the place that the other one left. */
    ghost method Rejoin(key: string, lease: UpstreamLease, connection: Connection, was: map<Connection, Place>,
                        wasIn: map<string, set<UpstreamLease>>, other: UpstreamLease)
      requires LeasesOk() && OpenOk() && key in leasesIn && lease !in live && connection.open && key in wasIn
      requires lease.pool == this && lease.bucketKey == key && lease.connection == connection
      requires holder == was - {connection} && leasesIn == wasIn[key := wasIn[key] - {other}]
      modifies this`live, this`leasesIn, this`holder
      ensures LeasesOk() && OpenOk() && live == old(live) + {lease}
      ensures leasesIn == wasIn[key := wasIn[key] - {other} + {lease}] && holder == was[connection := Leased(lease)]
    {
      hide LeasesOk, OpenOk;
      AddLease(key, lease, connection);
    }

    /** Counters and idle entries agree with another lease in the place of the first one. */
    lemma PassedOn(key: string, to: UpstreamLease, other: UpstreamLease, connection: Connection)
      requires CountsOk() && IdleOk() && key in buckets && key in leasesIn && key in connectsIn
      requires other in leasesIn[key] && to !in leasesIn[key]
      requires connection in holder && holder[connection] == Leased(other)
      ensures CountsAgree(buckets, leasesIn[key := leasesIn[key] - {other} + {to}], connectsIn)
      ensures IdleAgree(buckets, holder[connection := Leased(to)])
    {
      var leases := leasesIn[key] - {other} + {to};
      assert leasesIn[key] == leasesIn[key] - {other} + {other};
      assert |leases| == |leasesIn[key]|;
      CountsChanged(buckets, leasesIn, connectsIn, key, buckets[key], leases, connectsIn[key]);
      IdleSame(buckets, holder, key, connection, buckets[key], holder[connection := Leased(to)]);
      SameEntry(buckets, key);
      SameEntry(connectsIn, key);
    }

    // ---------- Draining ----------

    method StopAcquiring()
      requires Valid()
      modifies this`accepting
      ensures Valid() && !accepting
    {
      accepting := false;
    }

    /** Cancels every connect in flight; each of them still resumes, usually with an error. */
    method CancelPendingAcquisitions() returns (controls: set<nat>)
      requires Valid()
      ensures controls == connecting.Keys
    {
      controls := connecting.Keys;
    }

    /** What closing the idle connections leaves of a bucket. */
    function Emptied(b: Bucket): Bucket {
      b.(totalCount := b.totalCount - |b.idleConnections|, idleConnections := [])
    }

    /** These are the connections that were idle; each still is, or has been destroyed. */
    ghost predicate Doomed(doomed: set<Connection>)
      reads this`holder, doomed
    {
      && (forall c :: c in holder && holder[c].Idle? ==> c in doomed)
      && (forall c :: c in doomed ==> !c.open || (c in holder && holder[c].Idle?))
    }

    method CloseBucket(key: string, ghost doomed: set<Connection>)
      requires Valid() && key in buckets && Doomed(doomed)
      modifies this`buckets, this`holder, doomed`open
      ensures Valid() && buckets == old(buckets)[key := Emptied(old(buckets[key]))] && Doomed(doomed)
    {
      hide CountsAgree, IdleAgree, ConnectsAgree, LeasesOk, OpenOk;
      while buckets[key].idleConnections != []
        invariant Valid() && key in buckets && buckets == old(buckets)[key := buckets[key]]
        invariant Emptied(buckets[key]) == Emptied(old(buckets[key]))
        invariant Doomed(doomed)
        decreases |buckets[key].idleConnections|
      {
        PlaceOfIdle(key, 0);
        DiscardIdle(key, 0, buckets[key].idleConnections[0]);
      }
    }

    /** Destroys every idle connection; leases and connects stay as they are. */
    method CloseIdle()
      requires Valid()
      modifies this`buckets, this`holder, set c | c in holder && holder[c].Idle? :: c
      ensures Valid() && buckets.Keys == old(buckets.Keys)
      ensures forall k :: k in buckets ==> buckets[k] == Emptied(old(buckets)[k])
      ensures forall c :: c in holder ==> holder[c].Leased?
      ensures forall c :: c in old(holder) && old(holder)[c].Idle? ==> !c.open
    {
      hide CountsAgree, ConnectsAgree, LeasesOk, OpenOk, Emptied, Doomed;
      ghost var doomed := set c | c in holder && holder[c].Idle? :: c;
      AllDoomed(doomed);
      var keys := buckets.Keys;
      while keys != {}
        invariant Valid() && keys <= buckets.Keys == old(buckets.Keys)
        invariant forall k :: k in buckets && k in keys ==> buckets[k] == old(buckets)[k]
        invariant forall k :: k in buckets && k !in keys ==> buckets[k] == Emptied(old(buckets)[k])
        invariant Doomed(doomed)
        decreases |keys|
      {
        var key :| key in keys;
        CloseBucket(key, doomed);
        keys := keys - {key};
      }
      NoIdleLeft(doomed);
    }

    lemma AllDoomed(doomed: set<Connection>)
      requires doomed == set c | c in holder && holder[c].Idle? :: c
      ensures Doomed(doomed)
    {
    }

    lemma NoIdleLeft(doomed: set<Connection>)
      requires IdleOk() && Doomed(doomed) && forall k :: k in buckets ==> exists b :: buckets[k] == Emptied(b)
      ensures forall c :: c in holder ==> holder[c].Leased?
      ensures forall c :: c in doomed ==> !c.open
    {
    }

    method Active(route: Route, endpoint: Endpoint) returns (n: int)
      requires Valid()
      ensures var key := MakeBucketKey(route.name, endpoint); n == if key in leasesIn then |leasesIn[key]| else 0
    {
      hide MakeBucketKey;
      var key := MakeBucketKey(route.name, endpoint);
      return if key in buckets then buckets[key].leasedCount else 0;
    }

    method IdleConnections(route: Route, endpoint: Endpoint) returns (n: nat)
      requires Valid()
      ensures var key := MakeBucketKey(route.name, endpoint); n == if key in buckets then |buckets[key].idleConnections| else 0
    {
      hide MakeBucketKey;
      var key := MakeBucketKey(route.name, endpoint);
      return if key in buckets then |buckets[key].idleConnections| else 0;
    }

    /** What holds between any two steps of any interleaving. */
    lemma Accounting(key: string, c: Connection)
      requires Valid() && key in buckets
      ensures var b := buckets[key];
        && b.totalCount == |leasesIn[key]| + |b.idleConnections| && b.leasedCount == |leasesIn[key]|
        && b.connectingCount == |connectsIn[key]| && b.totalCount + b.connectingCount <= b.maxConnections
        && |b.idleConnections| <= b.maxIdle
      ensures forall l :: l in live && l.connection == c ==> c !in buckets[key].idleConnections
      ensures forall l, m :: l in live && m in live && l.connection == c && m.connection == c ==> l == m
      ensures forall k :: k in buckets && c in buckets[k].idleConnections && c in buckets[key].idleConnections ==> k == key
    {
      forall l | l in live ensures LeaseOk(l) {
      }
      forall k | k in buckets && c in buckets[k].idleConnections ensures c in holder && holder[c] == Idle(k) {
      }
    }
  }
}
