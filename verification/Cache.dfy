/** `Cache` (proxy/cache.cpp) as the source builds it: a map of entries, a linked recency list and a
    map from key to list iterator, guarded by a reader-writer lock.  Each operation is proved to
    change the abstract state exactly as the function of CacheSpec says. */
module Cache {
  import opened CacheEntries
  import opened CacheSpec
  import opened Linking
  import opened RecencyList
  import opened Locks

  /** The stored iterator of a key names a live cell of the list. */
  lemma IteratorIsLive(nodes: seq<Node>, iterators: map<string, Node>, key: string) returns (i: nat)
    requires Linked(nodes, iterators, NodeKey) && key in iterators
    ensures i < |nodes| && nodes[i] == iterators[key] && nodes[i].key == key
  {
    LinkedKeys(nodes, iterators, NodeKey);
    i :| i < |nodes| && KeysOf(nodes, NodeKey)[i] == key;
  }

  /** Erasing a cell from the list drops its key from the keys. */
  lemma KeysErase(nodes: seq<Node>, i: nat)
    requires NoDup(KeysOf(nodes, NodeKey)) && i < |nodes|
    ensures KeysOf(nodes[..i] + nodes[i + 1..], NodeKey) == Without(KeysOf(nodes, NodeKey), nodes[i].key)
  {
    WithoutAt(KeysOf(nodes, NodeKey), i);
    hide NoDup, Without;
    var keys, rest := KeysOf(nodes, NodeKey), nodes[..i] + nodes[i + 1..];
    forall j | 0 <= j < |rest| ensures KeysOf(rest, NodeKey)[j] == (keys[..i] + keys[i + 1..])[j] {
      assert rest[j] == nodes[if j < i then j else j + 1];
    }
  }

  lemma {:induction false} LinkedWithout(nodes: seq<Node>, iterators: map<string, Node>, i: nat)
    requires Linked(nodes, iterators, NodeKey) && i < |nodes|
    ensures Linked(nodes[..i] + nodes[i + 1..], iterators - {nodes[i].key}, NodeKey)
  {
    var rest := nodes[..i] + nodes[i + 1..];
    var first, key := nodes[0].key, nodes[i].key;
    if i == 0 {
      assert rest == nodes[1..];
    } else {
      var tail, iterators' := nodes[1..], iterators - {first};
      LinkedWithout(tail, iterators', i - 1);
      assert tail[i - 1] == nodes[i];
      assert rest[0] == nodes[0] && rest[1..] == tail[..i - 1] + tail[i..];
      assert key != first by { LinkedKeys(tail, iterators', NodeKey); assert KeysOf(tail, NodeKey)[i - 1] == key; }
      assert iterators' - {key} == iterators - {key} - {first};
    }
  }

  /** Erasing a cell and its iterator keeps the agreement and drops the key from the order. */
  lemma LinkedErase(nodes: seq<Node>, iterators: map<string, Node>, i: nat)
    requires Linked(nodes, iterators, NodeKey) && i < |nodes|
    ensures Linked(nodes[..i] + nodes[i + 1..], iterators - {nodes[i].key}, NodeKey)
    ensures KeysOf(nodes[..i] + nodes[i + 1..], NodeKey) == Without(KeysOf(nodes, NodeKey), nodes[i].key)
  {
    LinkedKeys(nodes, iterators, NodeKey);
    KeysErase(nodes, i);
    LinkedWithout(nodes, iterators, i);
  }

  lemma LastErased(nodes: seq<Node>)
    requires nodes != []
    ensures var last := |nodes| - 1;
            && nodes[..last] + nodes[last + 1..] == nodes[..last]
            && KeysOf(nodes[..last], NodeKey) == KeysOf(nodes, NodeKey)[..last]
  {}

  /** Nothing to erase for a key without an iterator. */
  lemma LinkedAbsent(nodes: seq<Node>, iterators: map<string, Node>, key: string)
    requires Linked(nodes, iterators, NodeKey) && key !in iterators
    ensures iterators - {key} == iterators && Without(KeysOf(nodes, NodeKey), key) == KeysOf(nodes, NodeKey)
  {
    LinkedKeys(nodes, iterators, NodeKey);
    WithoutAbsent(KeysOf(nodes, NodeKey), key);
  }

  /** Pushing a new cell over a list that no longer has one for its key, whatever the iterator of
      that key still is. */
  lemma LinkedPush(nodes: seq<Node>, iterators: map<string, Node>, node: Node)
    requires Linked(nodes, iterators - {node.key}, NodeKey)
    ensures Linked([node] + nodes, iterators[node.key := node], NodeKey)
    ensures KeysOf([node] + nodes, NodeKey) == [node.key] + KeysOf(nodes, NodeKey)
  {
    assert ([node] + nodes)[1..] == nodes;
    assert iterators[node.key := node] - {node.key} == iterators - {node.key};
  }

  class Cache {
    const cacheMutex: SharedMutex
    const accessOrder: List
    const maxEntries: nat
    var cacheMap: map<string, CacheEntry>
    var keyToIterator: map<string, Node>

    /** What the cache means: the keys of the list, newest first, and the map of entries. */
    ghost function Contents(): CacheState
      reads `cacheMap, accessOrder`nodes
    {
      CacheState(KeysOf(accessOrder.nodes, NodeKey), cacheMap)
    }

    /** All three structures agree. */
    ghost predicate Valid()
      reads `cacheMap, `keyToIterator, accessOrder`head, accessOrder`tail, accessOrder`nodes,
            accessOrder.nodes`prev, accessOrder.nodes`next
    {
      && accessOrder.Valid()
      && Linked(accessOrder.nodes, keyToIterator, NodeKey)
      && cacheMap.Keys == keyToIterator.Keys
    }

    /** The abstract state of a valid cache is a valid one, and `size()` is the list's length. */
    lemma ValidContents()
      requires Valid()
      ensures CacheSpec.Valid(Contents()) && |cacheMap| == |accessOrder.nodes|
    {
      LinkedKeys(accessOrder.nodes, keyToIterator, NodeKey);
      SizeIsLength(Contents());
    }

    constructor (maxEntries: nat)
      ensures Valid() && fresh(accessOrder) && fresh(cacheMutex)
      ensures Contents() == EMPTY && this.maxEntries == maxEntries
      ensures cacheMutex.readers == 0 && !cacheMutex.writer
    {
      this.maxEntries := maxEntries;
      cacheMutex := new SharedMutex();
      accessOrder := new List();
      cacheMap, keyToIterator := map[], map[];
    }

    method EvictOldest()
      requires Valid()
      modifies `cacheMap, `keyToIterator, accessOrder`head, accessOrder`tail, accessOrder`nodes,
               accessOrder.nodes`prev, accessOrder.nodes`next
      ensures Valid() && Contents() == CacheSpec.EvictOldest(old(Contents()))
      ensures accessOrder.nodes <= old(accessOrder.nodes)
    {
      hide List.Valid, Linked, Without, NoDup, KeysOf;
      if !accessOrder.Empty() {
        ghost var nodes := accessOrder.nodes;
        ghost var last := |nodes| - 1;
        LinkedErase(nodes, keyToIterator, last);
        LastErased(nodes);
        var oldestKey := accessOrder.Back();
        accessOrder.PopBack();
        cacheMap := cacheMap - {oldestKey};
        keyToIterator := keyToIterator - {oldestKey};
      }
    }

    /** On entry the list and the iterators agree, but the map may already hold a key they lack. */
    method UpdateAccessOrder(key: string)
      requires accessOrder.Valid() && Linked(accessOrder.nodes, keyToIterator, NodeKey)
      modifies `keyToIterator, accessOrder`head, accessOrder`tail, accessOrder`nodes,
               accessOrder.nodes`prev, accessOrder.nodes`next
      ensures accessOrder.Valid() && Linked(accessOrder.nodes, keyToIterator, NodeKey)
      ensures keyToIterator.Keys == old(keyToIterator.Keys) + {key}
      ensures KeysOf(accessOrder.nodes, NodeKey) == [key] + Without(KeysOf(old(accessOrder.nodes), NodeKey), key)
    {
      hide List.Valid, Linked, Without, NoDup, KeysOf;
      ghost var nodes, iterators := accessOrder.nodes, keyToIterator;
      if key in keyToIterator {
        ghost var i := IteratorIsLive(nodes, keyToIterator, key);
        LinkedErase(nodes, iterators, i);
        accessOrder.Erase(keyToIterator[key], i);
      } else {
        LinkedAbsent(nodes, iterators, key);
      }
      ghost var rest := accessOrder.nodes;
      var node := accessOrder.PushFront(key);
      LinkedPush(rest, keyToIterator, node);
      keyToIterator := keyToIterator[key := node];
    }

    method Get(key: string) returns (r: Option<CacheEntry>)
      requires Valid() && !cacheMutex.writer
      modifies cacheMutex`readers, cacheMutex`writer, cacheMutex`releases
      ensures Valid() && Contents() == old(Contents()) && r == CacheSpec.Get(Contents(), key)
      ensures cacheMutex.readers == old(cacheMutex.readers) && !cacheMutex.writer
    {
      var lock := new ReaderLock(cacheMutex);
      if key in cacheMap {
        r := Some(cacheMap[key]);
      } else {
        r := None;
      }
      lock.Destroy();
    }

    /** The guarded part of `put`: the capacity test, then the write and the order. */
    method PutLocked(key: string, value: CacheEntry)
      requires Valid()
      modifies `cacheMap, `keyToIterator, accessOrder`head, accessOrder`tail, accessOrder`nodes,
               accessOrder.nodes`prev, accessOrder.nodes`next
      ensures Valid() && Contents() == CacheSpec.Put(maxEntries, old(Contents()), key, value)
    {
      hide List.Valid, Linked, Valid, Without, CacheSpec.EvictOldest;
      if |cacheMap| >= maxEntries {
        EvictOldest();
      }
      assert Contents() == MakeRoom(maxEntries, old(Contents()));
      StoreNewest(key, value);
    }

    method StoreNewest(key: string, value: CacheEntry)
      requires Valid()
      modifies `cacheMap, `keyToIterator, accessOrder`head, accessOrder`tail, accessOrder`nodes,
               accessOrder.nodes`prev, accessOrder.nodes`next
      ensures Valid() && Contents() == CacheSpec.Store(old(Contents()), key, value)
    {
      hide List.Valid, Linked, Without;
      cacheMap := cacheMap[key := value];
      UpdateAccessOrder(key);
    }

    method Put(key: string, value: CacheEntry)
      requires Valid() && !cacheMutex.writer && cacheMutex.readers == 0
      modifies cacheMutex`readers, cacheMutex`writer, cacheMutex`releases
      modifies `cacheMap, `keyToIterator, accessOrder`head, accessOrder`tail, accessOrder`nodes,
               accessOrder.nodes`prev, accessOrder.nodes`next
      ensures Valid() && Contents() == CacheSpec.Put(maxEntries, old(Contents()), key, value)
      ensures !cacheMutex.writer && cacheMutex.readers == 0
    {
      hide Valid, Contents, List.Valid, Linked;
      var lock := new WriterLock(cacheMutex);
      PutLocked(key, value);
      lock.Destroy();
    }

    /** The guarded part of `remove`. */
    method RemoveLocked(key: string)
      requires Valid()
      modifies `cacheMap, `keyToIterator, accessOrder`head, accessOrder`tail, accessOrder`nodes,
               accessOrder.nodes`prev, accessOrder.nodes`next
      ensures Valid() && Contents() == CacheSpec.Remove(old(Contents()), key)
    {
      hide List.Valid, Linked, Without, NoDup;
      if key in cacheMap {
        cacheMap := cacheMap - {key};
        if key in keyToIterator {
          ghost var nodes := accessOrder.nodes;
          ghost var i := IteratorIsLive(nodes, keyToIterator, key);
          LinkedErase(nodes, keyToIterator, i);
          accessOrder.Erase(keyToIterator[key], i);
          keyToIterator := keyToIterator - {key};
        }
      }
    }

    method Remove(key: string)
      requires Valid() && !cacheMutex.writer && cacheMutex.readers == 0
      modifies cacheMutex`readers, cacheMutex`writer, cacheMutex`releases
      modifies `cacheMap, `keyToIterator, accessOrder`head, accessOrder`tail, accessOrder`nodes,
               accessOrder.nodes`prev, accessOrder.nodes`next
      ensures Valid() && Contents() == CacheSpec.Remove(old(Contents()), key)
      ensures !cacheMutex.writer && cacheMutex.readers == 0
    {
      hide Valid, Contents, List.Valid, Linked;
      var lock := new WriterLock(cacheMutex);
      RemoveLocked(key);
      lock.Destroy();
    }

    method Clear()
      requires Valid() && !cacheMutex.writer && cacheMutex.readers == 0
      modifies cacheMutex`readers, cacheMutex`writer, cacheMutex`releases
      modifies `cacheMap, `keyToIterator, accessOrder`head, accessOrder`tail, accessOrder`nodes
      ensures Valid() && Contents() == EMPTY
      ensures !cacheMutex.writer && cacheMutex.readers == 0
    {
      var lock := new WriterLock(cacheMutex);
      cacheMap := map[];
      accessOrder.Clear();
      keyToIterator := map[];
      lock.Destroy();
    }

    /** Expiry is judged on the copy, after the lock is gone, by a clock read of its own. */
    method IsValid(key: string, now: Tick) returns (valid: bool)
      requires Valid() && !cacheMutex.writer
      modifies cacheMutex`readers, cacheMutex`writer, cacheMutex`releases
      ensures Valid() && Contents() == old(Contents())
      ensures valid <==> key in cacheMap && !cacheMap[key].IsExpired(now)
      ensures cacheMutex.readers == old(cacheMutex.readers) && !cacheMutex.writer
    {
      var entry := Get(key);
      if entry.None? {
        return false;
      }
      return !entry.value.IsExpired(now);
    }

    method Size() returns (n: nat)
      requires Valid() && !cacheMutex.writer
      modifies cacheMutex`readers, cacheMutex`writer, cacheMutex`releases
      ensures Valid() && Contents() == old(Contents()) && n == |Contents().entries| == |Contents().order|
      ensures cacheMutex.readers == old(cacheMutex.readers) && !cacheMutex.writer
    {
      hide List.Valid, Linked, Without, NoDup;
      var lock := new ReaderLock(cacheMutex);
      n := |cacheMap|;
      ValidContents();
      lock.Destroy();
    }
  }
}
