/** The cache structure (internal/fleet/cache.go): a map and a recency list over shared nodes, both
    updated in place by store. The list package is a sequence of nodes; holding the lock makes each
    call atomic.
 */
module CacheStore {
  import opened CacheSpec
  import opened Upstream

  class CacheNode {
    const key: string
    var val: Payload
    var fetchedAt: int

    constructor (key: string, val: Payload, fetchedAt: int)
      ensures this.key == key && this.val == val && this.fetchedAt == fetchedAt
    {
      this.key, this.val, this.fetchedAt := key, val, fetchedAt;
    }
  }

  /** The entries a node list stands for. */
  function View(nodes: seq<CacheNode>): (r: seq<Entry>)
    reads nodes
    ensures |r| == |nodes|
    ensures forall i :: 0 <= i < |nodes| ==> r[i] == Entry(nodes[i].key, nodes[i].val, nodes[i].fetchedAt)
  {
    if nodes == [] then []
    else [Entry(nodes[0].key, nodes[0].val, nodes[0].fetchedAt)] + View(nodes[1..])
  }

  /** Map and list hold the same nodes. */
  ghost predicate Linked(items: map<string, CacheNode>, order: seq<CacheNode>) {
    && (forall i, j :: 0 <= i < j < |order| ==> order[i].key != order[j].key)
    && (forall i :: 0 <= i < |order| ==> order[i].key in items && items[order[i].key] == order[i])
    && (forall k :: k in items ==> items[k] in order && items[k].key == k)
    && |items| == |order|
  }

  class Cache {
    const maxEntries: int
    var items: map<string, CacheNode>
    var order: seq<CacheNode>
    ghost var history: seq<Entry>

    function Contents(): seq<Entry>
      reads this, order
    {
      View(order)
    }

    ghost predicate Valid()
      reads this, order
    {
      maxEntries > 0 && Linked(items, order) && |order| <= maxEntries && Contents() == StoreAll(history, maxEntries)
    }

    constructor (maxEntries: int)
      ensures Valid() && Contents() == [] && history == []
      ensures this.maxEntries == if maxEntries <= 0 then 512 else maxEntries
    {
      this.maxEntries := if maxEntries <= 0 then 512 else maxEntries;
      items, order, history := map[], [], [];
    }

    /** What a reader copies out under the read lock. */
    method Lookup(key: string) returns (found: bool, val: Payload, fetchedAt: int)
      requires Valid()
      ensures found <==> Has(Contents(), key)
      ensures found ==> Entry(key, val, fetchedAt) in Contents()
    {
      found, val, fetchedAt := key in items, Payload("", 0), 0;
      if found {
        var node := items[key];
        var i :| 0 <= i < |order| && order[i] == node;
        assert Contents()[i] == Entry(key, node.val, node.fetchedAt);
        val, fetchedAt := node.val, node.fetchedAt;
      }
    }

    method Store(key: string, val: Payload, now: int)
      requires Valid()
      modifies this, order
      ensures Valid()
      ensures Contents() == StoreStep(old(Contents()), Entry(key, val, now), maxEntries)
      ensures history == old(history) + [Entry(key, val, now)]
      ensures forall n :: n in order ==> n in old(order) || fresh(n)
    {
      hide StoreStep, StoreAll, Linked, View, Newest, Drop, Has;
      StoreCases(Contents(), Entry(key, val, now), maxEntries);
      HasIsKnown(items, order, key);
      if key in items {
        KnownNode(items, order, key);
        Restamp(items[key], val, now);
      } else {
        var node := new CacheNode(key, val, now);
        assert Contents() == old(Contents());
        LinkedPush(items, order, node);
        ViewPush(order, node);
        order := order + [node];
        items := items[key := node];
        Evict();
      }
      StoreAllSnoc(history, Entry(key, val, now), maxEntries);
      history := history + [Entry(key, val, now)];
    }

    method Restamp(node: CacheNode, val: Payload, now: int)
      requires Linked(items, order) && node in order
      modifies this`order, node
      ensures Linked(items, order)
      ensures |order| == |old(order)| && forall n :: n in order <==> n in old(order)
      ensures Contents() == Drop(old(Contents()), node.key) + [Entry(node.key, val, now)]
    {
      hide Linked, View, Drop;
      ghost var was := Contents();
      var i := MoveToBack(node);
      KeysBefore(items, old(order), i);
      DropAt(was, node.key, i);
      node.val := val;
      node.fetchedAt := now;
      KeysBefore(items, old(order), i);
      assert Contents() == was[..i] + was[i + 1..] + [Entry(node.key, val, now)];
    }

    /** container/list: unlink the element and link it behind the last one. */
    method MoveToBack(node: CacheNode) returns (i: nat)
      requires Linked(items, order) && node in order
      modifies this`order
      ensures Linked(items, order)
      ensures i < |old(order)| && old(order)[i] == node && order == Moved(old(order), i)
      ensures |order| == |old(order)| && forall n :: n in order <==> n in old(order)
    {
      hide Linked;
      ghost var at :| 0 <= at < |order| && order[at] == node;
      i := 0;
      while order[i] != node
        invariant i <= at
        decreases at - i
      {
        i := i + 1;
      }
      LinkedMove(items, order, i);
      order := Moved(order, i);
    }

    /** Removes from the front until the bound holds. */
    method Evict()
      requires Linked(items, order) && maxEntries > 0
      modifies this`items, this`order
      ensures Linked(items, order) && |order| <= maxEntries
      ensures forall n :: n in order ==> n in old(order)
      ensures Contents() == Newest(old(Contents()), maxEntries)
    {
      hide Linked, View, Newest;
      while maxEntries > 0 && |items| > maxEntries
        invariant Linked(items, order)
        invariant forall n :: n in order ==> n in old(order)
        invariant Newest(Contents(), maxEntries) == Newest(old(Contents()), maxEntries)
        decreases |items|
      {
        LinkedSize(items, order);
        if |order| == 0 {
          break;
        }
        NewestPop(Contents(), maxEntries);
        EvictOldest();
      }
      LinkedSize(items, order);
      NewestPop(Contents(), maxEntries);
    }

    method EvictOldest()
      requires Linked(items, order) && order != []
      modifies this`items, this`order
      ensures Linked(items, order) && order == old(order)[1..] && Contents() == old(Contents())[1..]
      ensures |items| < old(|items|)
    {
      hide Linked, View;
      LinkedSize(items, order);
      var oldest := order[0];
      LinkedPop(items, order);
      ViewPop(order);
      order := order[1..];
      items := items - {oldest.key};
      LinkedSize(items, order);
    }
  }

  lemma ViewPop(order: seq<CacheNode>)
    requires order != []
    ensures View(order)[1..] == View(order[1..])
  {}

  lemma NewestPop(s: seq<Entry>, n: nat)
    ensures |s| > n ==> Newest(s, n) == Newest(s[1..], n)
    ensures |s| <= n ==> Newest(s, n) == s
  {}

  lemma LinkedSize(items: map<string, CacheNode>, order: seq<CacheNode>)
    requires Linked(items, order)
    ensures |items| == |order|
  {}

  lemma KnownNode(items: map<string, CacheNode>, order: seq<CacheNode>, key: string)
    requires Linked(items, order) && key in items
    ensures items[key] in order && items[key].key == key
  {}

  lemma KeysBefore(items: map<string, CacheNode>, order: seq<CacheNode>, i: nat)
    requires Linked(items, order) && i < |order|
    ensures forall j :: 0 <= j < |order| && j != i ==> order[j].key != order[i].key && order[j] != order[i]
  {}

  function Moved(order: seq<CacheNode>, i: nat): seq<CacheNode>
    requires i < |order|
  {
    order[..i] + order[i + 1..] + [order[i]]
  }

  lemma MovedMembers(order: seq<CacheNode>, i: nat)
    requires i < |order|
    ensures |Moved(order, i)| == |order|
    ensures forall n :: n in Moved(order, i) <==> n in order
    ensures forall j :: 0 <= j < |order| ==>
              Moved(order, i)[j] == order[if j < i then j else if j < |order| - 1 then j + 1 else i]
  {
    var moved := Moved(order, i);
    forall n | n in order ensures n in moved {
      var j :| 0 <= j < |order| && order[j] == n;
      assert moved[if j < i then j else if j > i then j - 1 else |order| - 1] == n;
    }
  }

  lemma LinkedMove(items: map<string, CacheNode>, order: seq<CacheNode>, i: nat)
    requires Linked(items, order) && i < |order|
    ensures Linked(items, Moved(order, i))
    ensures forall n :: n in Moved(order, i) <==> n in order
  {
    hide Moved;
    MovedMembers(order, i);
  }

  lemma LinkedPush(items: map<string, CacheNode>, order: seq<CacheNode>, node: CacheNode)
    requires Linked(items, order) && node.key !in items
    ensures Linked(items[node.key := node], order + [node])
  {}

  lemma LinkedPop(items: map<string, CacheNode>, order: seq<CacheNode>)
    requires Linked(items, order) && order != []
    ensures Linked(items - {order[0].key}, order[1..])
  {
    var rest := items - {order[0].key};
    forall k | k in rest ensures rest[k] in order[1..] {
      var j :| 0 <= j < |order| && order[j] == items[k];
      assert order[1..][j - 1] == items[k];
    }
    assert items == rest[order[0].key := order[0]];
  }

  lemma ViewPush(order: seq<CacheNode>, node: CacheNode)
    ensures View(order + [node]) == View(order) + [Entry(node.key, node.val, node.fetchedAt)]
  {}

  lemma HasIsKnown(items: map<string, CacheNode>, order: seq<CacheNode>, key: string)
    requires Linked(items, order)
    ensures Has(View(order), key) <==> key in items
  {
    if key in items {
      var j :| 0 <= j < |order| && order[j] == items[key];
      assert View(order)[j].key == key;
    }
  }

  lemma StoreCases(s: seq<Entry>, e: Entry, bound: nat)
    ensures Has(s, e.key) ==> StoreStep(s, e, bound) == Drop(s, e.key) + [e]
    ensures !Has(s, e.key) ==> StoreStep(s, e, bound) == Newest(s + [e], bound)
  {}

  lemma {:induction false} DropAt(s: seq<Entry>, key: string, i: nat)
    requires i < |s| && s[i].key == key && forall j :: 0 <= j < i ==> s[j].key != key
    ensures Has(s, key) && Drop(s, key) == s[..i] + s[i + 1..]
  {
    if i > 0 {
      DropAt(s[1..], key, i - 1);
    }
  }

  /** Main result: whatever was stored, in whatever order, the cache holds exactly the most recently
      stored distinct keys that fit, oldest store first, each with its last value and time. */
  lemma CacheIsRecent(c: Cache)
    requires c.Valid()
    ensures c.Contents() == Newest(LastStores(c.history), c.maxEntries)
    ensures Chronological(c.history) ==> Chronological(c.Contents())
  {
    StoreAllIsRecent(c.history, c.maxEntries);
    if Chronological(c.history) {
      ContentsChronological(c.history, c.maxEntries);
    }
  }
}
