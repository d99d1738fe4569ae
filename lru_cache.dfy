/** The bounded least-recently-used cache of problem_1.py: a key-to-node
    dictionary beside the usage list of module LruList. Each operation is
    proved against the abstract cache of module LruSpec. */
module LruCache {
  import LruSpec
  import opened LruList
  import opened LruIndex

  /** `LRU_Cache`: the dictionary maps each key to its node in the usage list. */
  class LRUCache<K(==)> {
    var cacheDict: map<K, Node<K>>
    const capacity: nat
    const lruList: DoublyLinkedList<K>
    /** The abstract cache: keys from most to least recently used and the
        value stored under each. */
    ghost var model: LruSpec.Lru<K>

    /** The invariant between calls. */
    ghost predicate Valid()
      reads this, lruList, lruList.nodes
    {
      lruList.Valid() && model.capacity == capacity && Represents(model, cacheDict, lruList.nodes)
    }

    /** The invariant between the two halves of a `set` at capacity: a sole
        node left by the eviction may keep a stale `prev`. */
    ghost predicate Consistent()
      reads this, lruList, lruList.nodes
    {
      lruList.Linked() && model.capacity == capacity && Represents(model, cacheDict, lruList.nodes)
    }

    /** A requested capacity below 1 is coerced to 1 (the source also warns). */
    constructor (capacity: int)
      ensures Valid() && fresh(lruList)
      ensures model == LruSpec.Init(capacity)
    {
      cacheDict := map[];
      if capacity < 1 {
        this.capacity := 1;
      } else {
        this.capacity := capacity;
      }
      lruList := new DoublyLinkedList();
      model := LruSpec.Init(capacity);
    }

    /** `get`: a hit moves the key's node to the head and returns its value;
        a miss returns -1. The dictionary is never changed. */
    method Get(key: K) returns (r: int)
      requires Valid()
      modifies this, lruList, lruList.nodes
      ensures Valid() && cacheDict == old(cacheDict)
      ensures (model, r) == LruSpec.Get(old(model), key)
    {
      if key in cacheDict {
        var retrievedNode := cacheDict[key];
        GetStep(model, cacheDict, lruList.nodes, key);
        RecordHit(key);
        MoveToFront(retrievedNode);
        r := retrievedNode.value;
      } else {
        r := -1;
      }
    }

    /** The list half of a hit: the node is unlinked and prepended again. */
    method MoveToFront(node: Node<K>)
      requires lruList.Valid() && node in lruList.nodes
      modifies lruList, lruList.nodes
      ensures lruList.Valid()
      ensures lruList.nodes == [node] + LruSpec.Without(old(lruList.nodes), node)
      ensures unchanged(this)
    {
      ghost var ns := lruList.nodes;
      LruSpec.WithoutMembers(ns, node);
      lruList.Remove(node);
      assert forall i :: 0 <= i < |lruList.nodes| ==> lruList.nodes[i] in ns;
      lruList.Prepend(node);
    }

    /** The abstract cache records the hit; nothing concrete changes. */
    method RecordHit(key: K)
      requires lruList.Valid()
      modifies this
      ensures model == LruSpec.Get(old(model), key).0 && cacheDict == old(cacheDict)
      ensures lruList.Valid() && lruList.nodes == old(lruList.nodes)
    {
      model := LruSpec.Get(model, key).0;
    }

    /** `set` for a key the source handles consistently (see
        `LruSpec.CanSet`): below capacity the new entry is inserted; at
        capacity the least recently used entry is evicted first. */
    method Set(key: K, value: int)
      requires Valid()
      requires LruSpec.CanSet(model, key)
      modifies this, lruList, lruList.nodes
      ensures Valid()
      ensures model == LruSpec.Set(old(model), key, value)
    {
      assert |model.store| == |cacheDict| by {
        assert model.store.Keys == cacheDict.Keys;
      }
      if |cacheDict| < capacity {
        InsertNew(key, value);
      } else {
        LruSpec.SetAfterEvict(model, key);
        EvictOldest();
        InsertNew(key, value);
      }
    }

    /** The statements both branches of `set` end with: a new node for `key`
        goes into the dictionary and to the head of the list. */
    method InsertNew(key: K, value: int)
      requires Consistent()
      requires key !in model.store && |model.store| < capacity
      modifies this, lruList, lruList.nodes
      ensures Valid()
      ensures model == LruSpec.Insert(old(model), key, value)
    {
      var node := NewNode(key, value);
      InsertStep(model, cacheDict, lruList.nodes, node);
      AddEntry(node);
      PushFront(node);
    }

    /** A new node for `key`, not yet in the list. */
    method NewNode(key: K, value: int) returns (node: Node<K>)
      ensures fresh(node) && node !in lruList.nodes
      ensures node.key == key && node.value == value
      ensures node.next == null && node.prev == null
    {
      node := new Node(key, value);
    }

    /** The dictionary half of an insertion; the abstract cache follows. */
    method AddEntry(node: Node<K>)
      requires lruList.Linked()
      modifies this
      ensures cacheDict == old(cacheDict)[node.key := node]
      ensures model == LruSpec.Insert(old(model), node.key, node.value)
      ensures lruList.Linked() && lruList.nodes == old(lruList.nodes)
    {
      cacheDict := cacheDict[node.key := node];
      model := LruSpec.Insert(model, node.key, node.value);
    }

    /** The list half of an insertion. */
    method PushFront(node: Node<K>)
      requires lruList.Linked() && node !in lruList.nodes
      requires node.next == null && node.prev == null
      modifies lruList, lruList.nodes, node
      ensures lruList.Valid() && lruList.nodes == [node] + old(lruList.nodes)
      ensures unchanged(this)
    {
      lruList.Prepend(node);
    }

    /** The first half of `set` at capacity: the tail node's key leaves the
        dictionary and the node leaves the list. */
    method EvictOldest()
      requires Valid() && model.order != []
      modifies this, lruList, lruList.nodes
      ensures Consistent()
      ensures lruList.nodes == old(lruList.nodes)[..|old(lruList.nodes)| - 1]
      ensures model == LruSpec.Evict(old(model))
    {
      ghost var ns := lruList.nodes;
      var oldestNode := lruList.tail;
      EvictStep(model, cacheDict, ns);
      DropEntry(oldestNode.key);
      Unlink(oldestNode);
    }

    /** The dictionary half of an eviction; the abstract cache follows. */
    method DropEntry(oldKey: K)
      requires lruList.Valid() && model.order != []
      modifies this
      ensures cacheDict == old(cacheDict) - {oldKey}
      ensures model == LruSpec.Evict(old(model))
      ensures lruList.Valid() && lruList.nodes == old(lruList.nodes)
    {
      cacheDict := cacheDict - {oldKey};
      model := LruSpec.Evict(model);
    }

    /** The list half of an eviction. */
    method Unlink(node: Node<K>)
      requires lruList.Valid() && node in lruList.nodes
      modifies lruList, lruList.nodes
      ensures lruList.Linked()
      ensures lruList.nodes == LruSpec.Without(old(lruList.nodes), node)
      ensures unchanged(this)
    {
      lruList.Remove(node);
    }
  }
}
