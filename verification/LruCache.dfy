/** A cache over a doubly linked list between two sentinels, with a map from keys to list nodes. */
module LruCache {
  import opened RecencyList
  import opened Sequences
  import opened Wrappers

  class Node<K, V> {
    const key: K
    var value: V
    var prev: Node?<K, V>
    var next: Node?<K, V>

    constructor (key: K, value: V)
      ensures this.key == key && this.value == value
    {
      this.key, this.value, prev, next := key, value, null, null;
    }
  }

  /** The nodes are linked in this order, in both directions. */
  ghost predicate Linked<K, V>(chain: seq<Node<K, V>>)
    reads chain
  {
    && (forall i, j :: 0 <= i < j < |chain| ==> chain[i] != chain[j])
    && (forall i {:trigger chain[i].next} :: 0 <= i < |chain| - 1 ==> chain[i].next == chain[i + 1])
    && (forall i {:trigger chain[i].prev} :: 0 < i < |chain| ==> chain[i].prev == chain[i - 1])
  }

  /** The entries are what the nodes hold. */
  ghost predicate Holds<K, V>(nodes: seq<Node<K, V>>, entries: seq<Entry<K, V>>)
    reads nodes`value
  {
    && |nodes| == |entries|
    && forall i {:trigger entries[i]} :: 0 <= i < |entries| ==> entries[i] == Entry(nodes[i].key, nodes[i].value)
  }

  /** The index finds exactly the nodes of the list. */
  ghost predicate Indexed<K, V>(cache: map<K, Node<K, V>>, nodes: seq<Node<K, V>>) {
    && |cache| == |nodes|
    && (forall n :: n in nodes ==> n.key in cache && cache[n.key] == n)
    && (forall k :: k in cache ==> cache[k] in nodes && cache[k].key == k)
  }

  lemma IndexedMoved<K, V>(cache: map<K, Node<K, V>>, nodes: seq<Node<K, V>>, i: nat)
    requires Indexed(cache, nodes) && i < |nodes|
    ensures Indexed(cache, [nodes[i]] + Without(nodes, i))
  {
    WithoutElements(nodes, i);
  }

  lemma IndexedMore<K, V>(cache: map<K, Node<K, V>>, nodes: seq<Node<K, V>>, node: Node<K, V>)
    requires Indexed(cache, nodes) && node.key !in cache
    ensures Indexed(cache[node.key := node], [node] + nodes)
  {
  }

  lemma OneKeyLess<K, V>(m: map<K, V>, key: K)
    requires key in m
    ensures |m - {key}| == |m| - 1
  {
    assert m.Keys == (m - {key}).Keys + {key};
  }

  lemma LastIsApart<T>(s: seq<T>)
    requires s != [] && Distinct(s)
    ensures forall x :: x in s[..|s| - 1] <==> x in s && x != s[|s| - 1]
  {
    assert s == s[..|s| - 1] + [s[|s| - 1]];
  }

  lemma IndexedLess<K, V>(cache: map<K, Node<K, V>>, nodes: seq<Node<K, V>>)
    requires Indexed(cache, nodes) && nodes != [] && Distinct(nodes)
    ensures Indexed(cache - {nodes[|nodes| - 1].key}, nodes[..|nodes| - 1])
  {
    hide Distinct;
    var last, front := nodes[|nodes| - 1], nodes[..|nodes| - 1];
    assert last in nodes;
    OneKeyLess(cache, last.key);
    LastIsApart(nodes);
  }

  lemma HoldsMore<K, V>(nodes: seq<Node<K, V>>, entries: seq<Entry<K, V>>, node: Node<K, V>)
    requires Holds(nodes, entries)
    ensures Holds([node] + nodes, [Entry(node.key, node.value)] + entries)
  {
  }

  lemma HoldsLess<K, V>(nodes: seq<Node<K, V>>, entries: seq<Entry<K, V>>)
    requires Holds(nodes, entries) && nodes != []
    ensures Holds(nodes[..|nodes| - 1], entries[..|entries| - 1])
  {
  }

  lemma HoldsMoved<K, V>(nodes: seq<Node<K, V>>, entries: seq<Entry<K, V>>, i: nat)
    requires Holds(nodes, entries) && i < |nodes|
    ensures Holds([nodes[i]] + Without(nodes, i), [entries[i]] + Without(entries, i))
  {
    forall k | 0 <= k < |Without(entries, i)|
      ensures Without(entries, i)[k] == Entry(Without(nodes, i)[k].key, Without(nodes, i)[k].value)
    {
      var from := if k < i then k else k + 1;
      assert Without(entries, i)[k] == entries[from] && Without(nodes, i)[k] == nodes[from];
    }
  }

  lemma MovedToFront<T>(chain: seq<T>, nodes: seq<T>, i: nat)
    requires i < |nodes| && |chain| == |nodes| + 2 && nodes == chain[1..|chain| - 1]
    ensures var rest := chain[..i + 1] + chain[i + 2..];
      var moved := [chain[0], nodes[i]] + rest[1..];
      moved[1..|moved| - 1] == [nodes[i]] + Without(nodes, i) && forall x :: x in moved <==> x in chain
  {
    var first, last, cut := chain[0], chain[|chain| - 1], Without(nodes, i);
    assert chain[..i + 1] + chain[i + 2..] == [first] + cut + [last];
    assert ([first] + cut + [last])[1..] == cut + [last];
    assert chain == [first] + nodes + [last];
    WithoutElements(nodes, i);
  }

  class LruCache<K(==, 0), V(0)> {
    const capacity: nat
    const head: Node<K, V>
    const tail: Node<K, V>
    var cache: map<K, Node<K, V>>
    /** The list from sentinel to sentinel, and the nodes between them. */
    ghost var chain: seq<Node<K, V>>
    ghost var nodes: seq<Node<K, V>>
    /** What the cache holds, most recently used first. */
    ghost var entries: seq<Entry<K, V>>
    /** This cache and every node it ever had. */
    ghost var Repr: set<object>

    ghost predicate ReprOk()
      reads this`chain, this`Repr
    {
      this in Repr && forall n :: n in chain ==> n in Repr
    }

    ghost predicate ListOk()
      reads this`chain, chain
    {
      |chain| >= 2 && chain[0] == head && chain[|chain| - 1] == tail && Linked(chain)
    }

    ghost predicate NodesOk()
      reads this`chain, this`nodes
    {
      |chain| == |nodes| + 2 && nodes == chain[1..|chain| - 1]
    }

    ghost predicate WellFormed()
      reads this, Repr
    {
      ReprOk() && ListOk() && NodesOk() && Indexed(cache, nodes) && Holds(nodes, entries)
    }

    ghost predicate Valid()
      reads this, Repr
    {
      WellFormed() && |nodes| <= capacity
    }

    lemma DistinctEntries()
      requires WellFormed()
      ensures Distinct(Keys(entries))
      ensures forall k :: k in Keys(entries) <==> k in cache
    {
      var keys := Keys(entries);
      forall i | 0 <= i < |nodes| ensures keys[i] in cache && cache[keys[i]] == nodes[i] {
        assert nodes[i] in nodes && keys[i] == entries[i].key;
      }
      assert forall i :: 0 <= i < |nodes| ==> nodes[i] == chain[i + 1];
      forall k | k in cache ensures k in keys {
        var i :| 0 <= i < |nodes| && nodes[i] == cache[k];
        assert keys[i] == entries[i].key == k;
      }
    }

    constructor (capacity: nat)
      ensures Valid() && entries == [] && this.capacity == capacity && fresh(Repr)
    {
      var k: K := *;
      var v: V := *;
      this.capacity := capacity;
      var first := new Node<K, V>(k, v);
      var last := new Node<K, V>(k, v);
      head, tail := first, last;
      cache, nodes, entries := map[], [], [];
      chain := [first, last];
      Repr := {this, first, last};
      new;
      head.next := tail;
      tail.prev := head;
    }

    method InsertToHead(node: Node<K, V>)
      requires ListOk() && node !in chain
      modifies this`chain, node`prev, node`next, chain`prev, chain`next
      ensures ListOk() && chain == [head, node] + old(chain)[1..]
    {
      assert head.next == chain[1];
      node.prev := head;
      node.next := head.next;
      head.next.prev := node;
      head.next := node;
      chain := [head, node] + chain[1..];
    }

    method RemoveNode(node: Node<K, V>, ghost i: nat)
      requires ListOk() && 0 < i < |chain| - 1 && chain[i] == node
      modifies this`chain, chain`prev, chain`next
      ensures ListOk() && chain == old(chain)[..i] + old(chain)[i + 1..] && node !in chain
    {
      assert node.prev == chain[i - 1] && node.next == chain[i + 1];
      node.prev.next := node.next;
      node.next.prev := node.prev;
      chain := chain[..i] + chain[i + 1..];
    }

    lemma NodesInChain()
      requires NodesOk()
      ensures forall n :: n in nodes ==> n in chain
    {
    }

    /** Moves the node at place `i` of the list to its front. */
    method Relink(node: Node<K, V>, ghost i: nat)
      requires ListOk() && NodesOk() && ReprOk() && i < |nodes| && nodes[i] == node
      modifies this`chain, this`nodes, chain`prev, chain`next
      ensures ListOk() && NodesOk() && ReprOk() && nodes == [node] + Without(old(nodes), i)
    {
      hide Without, Linked;
      NodesInChain();
      MovedToFront(chain, nodes, i);
      RemoveNode(node, i + 1);
      InsertToHead(node);
      nodes := [node] + Without(nodes, i);
    }

    method Reorder(node: Node<K, V>, ghost i: nat)
      requires WellFormed() && i < |nodes| && nodes[i] == node
      modifies this`chain, this`nodes, chain`prev, chain`next
      ensures ReprOk() && ListOk() && NodesOk() && Indexed(cache, nodes) && nodes == [node] + Without(old(nodes), i)
    {
      hide Linked, Indexed, Holds, Without;
      IndexedMoved(cache, nodes, i);
      Relink(node, i);
    }

    lemma PutFrontAt(i: nat, value: V)
      requires WellFormed() && i < |nodes|
      ensures PutFront(entries, nodes[i].key, value) == [Entry(nodes[i].key, value)] + Without(entries, i)
      ensures entries[i] == Entry(nodes[i].key, nodes[i].value)
    {
      DistinctEntries();
      assert entries[i].key == nodes[i].key;
      RemoveEntryAt(entries, i);
    }

    /** A node of the list becomes the most recently used one. */
    method MoveToHead(node: Node<K, V>, ghost i: nat)
      requires Valid() && i < |nodes| && nodes[i] == node
      modifies this`chain, this`nodes, this`entries, chain`prev, chain`next
      ensures Valid() && entries == PutFront(old(entries), node.key, old(node.value))
    {
      hide Linked, NodesOk, Indexed;
      PutFrontAt(i, node.value);
      ghost var now := PutFront(entries, node.key, node.value);
      Reorder(node, i);
      HoldsMoved(old(nodes), entries, i);
      Record(now);
    }

    ghost method Record(now: seq<Entry<K, V>>)
      requires ReprOk() && ListOk() && NodesOk() && Indexed(cache, nodes) && Holds(nodes, now)
      modifies this`entries
      ensures WellFormed() && entries == now
    {
      entries := now;
    }

    /** A hit returns the cached value and makes it the most recently used one. */
    method Get(key: K) returns (value: Option<V>)
      requires Valid()
      modifies Repr
      ensures Valid() && Repr == old(Repr) && (value.Some? <==> key in Keys(old(entries)))
      ensures value.Some? ==> Entry(key, value.value) in old(entries)
      ensures entries == if value.Some? then PutFront(old(entries), key, value.value) else old(entries)
    {
      hide Linked, PutFront, Distinct, Keys;
      DistinctEntries();
      if key !in cache {
        return None;
      }
      var node := cache[key];
      value := Some(node.value);
      ghost var i :| 0 <= i < |nodes| && nodes[i] == node;
      assert entries[i] == Entry(key, node.value);
      MoveToHead(node, i);
    }

    /** A new value for a node, which changes nothing else. */
    method SetValue(node: Node<K, V>, value: V, ghost i: nat)
      requires Valid() && i < |nodes| && nodes[i] == node
      modifies this`entries, node`value
      ensures Valid() && node.value == value && entries == old(entries)[i := Entry(node.key, value)]
    {
      NodesInChain();
      DistinctNodes();
      node.value := value;
      Record(entries[i := Entry(node.key, value)]);
    }

    lemma DistinctNodes()
      requires ListOk() && NodesOk()
      ensures Distinct(nodes)
    {
      assert forall k :: 0 <= k < |nodes| ==> nodes[k] == chain[k + 1];
    }

    /** The old value is irrelevant once the entry with this key goes. */
    lemma Overwritten(before: seq<Entry<K, V>>, i: nat, value: V)
      requires i < |before| && Distinct(Keys(before))
      ensures var now := before[i := Entry(before[i].key, value)];
        PutFront(now, before[i].key, value) == PutFront(before, before[i].key, value)
    {
      var now := before[i := Entry(before[i].key, value)];
      assert Keys(now) == Keys(before);
      RemoveEntryAt(before, i);
      RemoveEntryAt(now, i);
    }

    /** A new node at the front, whether or not there is room for it. */
    method Insert(key: K, value: V)
      requires WellFormed() && key !in cache
      modifies Repr
      ensures WellFormed() && fresh(Repr - old(Repr)) && |nodes| == |old(nodes)| + 1
      ensures entries == [Entry(key, value)] + old(entries)
    {
      hide Linked, Indexed, Holds;
      var newNode := new Node<K, V>(key, value);
      IndexedMore(cache, nodes, newNode);
      cache := cache[key := newNode];
      Prepend(newNode);
      Record([Entry(key, value)] + entries);
    }

    method Prepend(node: Node<K, V>)
      requires ReprOk() && ListOk() && NodesOk() && Holds(nodes, entries) && node !in chain
      modifies this`chain, this`nodes, this`Repr, node`prev, node`next, chain`prev, chain`next
      ensures ReprOk() && ListOk() && NodesOk() && nodes == [node] + old(nodes) && Repr == old(Repr) + {node}
      ensures Holds(nodes, [Entry(node.key, node.value)] + entries)
    {
      hide Linked, Holds;
      MiddleGrows(chain, node);
      InsertToHead(node);
      HoldsMore(nodes, entries, node);
      nodes, Repr := [node] + nodes, Repr + {node};
    }

    lemma MiddleGrows(chain: seq<Node<K, V>>, node: Node<K, V>)
      requires |chain| >= 2
      ensures var longer := [chain[0], node] + chain[1..];
        |longer| == |chain| + 1 && longer[1..|longer| - 1] == [node] + chain[1..|chain| - 1]
    {
    }

    /** The least recently used node leaves. */
    method RemoveTail() returns (tailNode: Node<K, V>)
      requires ReprOk() && ListOk() && NodesOk() && Holds(nodes, entries) && nodes != []
      modifies this`chain, this`nodes, chain`prev, chain`next
      ensures ReprOk() && ListOk() && NodesOk() && tailNode == old(nodes)[|old(nodes)| - 1]
      ensures nodes == old(nodes)[..|old(nodes)| - 1] && Holds(nodes, entries[..|entries| - 1])
    {
      hide Linked, Holds;
      ghost var last := |nodes| - 1;
      LastNode();
      LastLeaves(chain, last);
      tailNode := tail.prev;
      RemoveNode(tailNode, last + 1);
      nodes := nodes[..last];
      HoldsLess(old(nodes), entries);
    }

    lemma LastNode()
      requires ListOk() && NodesOk() && nodes != []
      ensures tail.prev == chain[|nodes|] == nodes[|nodes| - 1]
    {
    }

    lemma LastLeaves(chain: seq<Node<K, V>>, last: nat)
      requires |chain| == last + 3
      ensures var shorter := chain[..last + 1] + chain[last + 2..];
        && |shorter| == last + 2 && shorter[0] == chain[0] && shorter[last + 1] == chain[last + 2]
        && shorter[1..last + 1] == chain[1..last + 2][..last] && forall n :: n in shorter ==> n in chain
    {
    }

    method Evict()
      requires WellFormed() && nodes != []
      modifies Repr
      ensures WellFormed() && Repr == old(Repr) && entries == old(entries)[..|old(entries)| - 1]
    {
      hide Linked, Indexed;
      var tailNode := Unlink();
      cache := cache - {tailNode.key};
      Record(entries[..|entries| - 1]);
    }

    method Unlink() returns (tailNode: Node<K, V>)
      requires WellFormed() && nodes != []
      modifies this`chain, this`nodes, chain`prev, chain`next
      ensures ReprOk() && ListOk() && NodesOk() && Indexed(cache - {tailNode.key}, nodes)
      ensures Holds(nodes, entries[..|entries| - 1])
    {
      hide Linked, Indexed;
      IndexWithoutLast();
      tailNode := RemoveTail();
    }

    lemma IndexWithoutLast()
      requires WellFormed() && nodes != []
      ensures Indexed(cache - {nodes[|nodes| - 1].key}, nodes[..|nodes| - 1])
    {
      DistinctNodes();
      IndexedLess(cache, nodes);
    }

    /** A known key gets the new value; a new one evicts the least recently used entry when there is
    no room, and itself when there is no room at all. */
    method Put(key: K, value: V)
      requires Valid()
      modifies Repr
      ensures Valid() && fresh(Repr - old(Repr))
      ensures entries == Truncate(PutFront(old(entries), key, value), capacity)
    {
      DistinctEntries();
      if key in cache {
        PutKnown(key, value);
      } else {
        AbsentEntry(key);
        PutNew(key, value);
      }
    }

    lemma AbsentEntry(key: K)
      requires WellFormed() && key !in cache
      ensures RemoveEntry(entries, key) == entries
    {
      DistinctEntries();
      assert forall j :: 0 <= j < |entries| ==> entries[j].key == Keys(entries)[j];
      RemoveEntryAbsent(entries, key);
    }

    method PutNew(key: K, value: V)
      requires Valid() && key !in cache
      modifies Repr
      ensures Valid() && fresh(Repr - old(Repr))
      ensures entries == Truncate([Entry(key, value)] + old(entries), capacity)
    {
      Insert(key, value);
      if |cache| > capacity {
        Evict();
      }
    }

    method PutKnown(key: K, value: V)
      requires Valid() && key in cache
      modifies Repr
      ensures Valid() && Repr == old(Repr) && entries == PutFront(old(entries), key, value)
    {
      hide Linked, NodesOk;
      NodesInChain();
      var node := cache[key];
      ghost var i :| 0 <= i < |nodes| && nodes[i] == node;
      DistinctEntries();
      PutFrontAt(i, value);
      Overwritten(entries, i, value);
      SetValue(node, value, i);
      MoveToHead(node, i);
    }

    function Size(): nat
      reads this
    {
      |cache|
    }

    method Clear()
      requires Valid()
      modifies Repr
      ensures Valid() && Repr == old(Repr) && entries == []
    {
      cache, nodes, entries := map[], [], [];
      head.next := tail;
      tail.prev := head;
      chain := [head, tail];
    }
  }
}
