/** How a key-to-node dictionary and a usage list stand for the abstract
    cache of module LruSpec, and how each step of the cache's operations
    moves both sides together. */
module LruIndex {
  import opened Wrappers
  import LruSpec
  import opened LruList

  /** The list holds the keys of `order`, in that order. */
  ghost predicate OrderOf<K>(order: seq<K>, ns: seq<Node<K>>) {
    |order| == |ns| && forall i :: 0 <= i < |ns| ==> order[i] == ns[i].key
  }

  /** The dictionary holds the keys of `store`, each with its value. */
  ghost predicate StoreOf<K>(store: map<K, int>, dict: map<K, Node<K>>) {
    store.Keys == dict.Keys && forall k :: k in dict ==> store[k] == dict[k].value
  }

  /** Every node of the list is the dictionary's entry for its own key. */
  ghost predicate Indexes<K>(dict: map<K, Node<K>>, ns: seq<Node<K>>) {
    forall n :: n in ns ==> n.key in dict && dict[n.key] == n
  }

  /** A dictionary and a usage list that stand for the abstract cache `c`. */
  ghost predicate Represents<K>(c: LruSpec.Lru<K>, dict: map<K, Node<K>>, ns: seq<Node<K>>) {
    LruSpec.Inv(c) && OrderOf(c.order, ns) && StoreOf(c.store, dict) && Indexes(dict, ns)
  }

  /** A cached key's node sits in the usage list. */
  lemma NodeOfKey<K>(c: LruSpec.Lru<K>, dict: map<K, Node<K>>, ns: seq<Node<K>>, key: K) returns (j: nat)
    requires Represents(c, dict, ns) && key in dict
    ensures j < |ns| && ns[j] == dict[key] && ns[j].key == key
  {
    assert key in c.order;
    var i :| 0 <= i < |c.order| && c.order[i] == key;
    assert ns[i] in ns;
    j := i;
  }

  /** Keys differ along the list, so its nodes do too. */
  lemma NodesUnique<K>(order: seq<K>, ns: seq<Node<K>>, j: nat)
    requires OrderOf(order, ns) && Distinct(order) && j < |ns|
    ensures forall i :: 0 <= i < |ns| && i != j ==> ns[i] != ns[j]
  {
    forall i | 0 <= i < |ns| && i != j ensures ns[i] != ns[j] {
      assert order[i] != order[j];
    }
  }

  lemma OrderOfCons<K>(order: seq<K>, ns: seq<Node<K>>, node: Node<K>)
    requires OrderOf(order, ns)
    ensures OrderOf([node.key] + order, [node] + ns)
  {
    forall i | 0 < i <= |ns| ensures ([node.key] + order)[i] == ([node] + ns)[i].key {
      assert ([node.key] + order)[i] == order[i - 1];
      assert ([node] + ns)[i] == ns[i - 1];
    }
  }

  lemma OrderOfRemoveAt<K>(order: seq<K>, ns: seq<Node<K>>, j: nat)
    requires OrderOf(order, ns) && j < |ns|
    ensures OrderOf(order[..j] + order[j + 1..], ns[..j] + ns[j + 1..])
  {
    var keys, rest := order[..j] + order[j + 1..], ns[..j] + ns[j + 1..];
    forall i | 0 <= i < |rest| ensures keys[i] == rest[i].key {
      if i >= j {
        assert keys[i] == order[i + 1];
        assert rest[i] == ns[i + 1];
      }
    }
  }

  lemma StoreOfUpdate<K>(store: map<K, int>, dict: map<K, Node<K>>, node: Node<K>)
    requires StoreOf(store, dict)
    ensures StoreOf(store[node.key := node.value], dict[node.key := node])
  { }

  lemma StoreOfRemove<K>(store: map<K, int>, dict: map<K, Node<K>>, key: K)
    requires StoreOf(store, dict)
    ensures StoreOf(store - {key}, dict - {key})
  { }

  /** A new node for an uncached key can join the index. */
  lemma IndexesCons<K>(dict: map<K, Node<K>>, ns: seq<Node<K>>, node: Node<K>)
    requires Indexes(dict, ns) && node.key !in dict
    ensures Indexes(dict[node.key := node], [node] + ns)
  {
    forall n | n in [node] + ns ensures n.key in dict[node.key := node] && dict[node.key := node][n.key] == n {
      if n != node {
        assert n in ns;
      }
    }
  }

  /** Any run of nodes taken from an indexed list is indexed. */
  lemma IndexesSub<K>(dict: map<K, Node<K>>, ns: seq<Node<K>>, ms: seq<Node<K>>)
    requires Indexes(dict, ns) && forall m :: m in ms ==> m in ns
    ensures Indexes(dict, ms)
  { }

  /** Dropping the tail's key from the dictionary keeps the rest indexed,
      since no other node carries that key. */
  lemma IndexesDropLast<K>(order: seq<K>, dict: map<K, Node<K>>, ns: seq<Node<K>>)
    requires OrderOf(order, ns) && Distinct(order) && Indexes(dict, ns) && ns != []
    ensures Indexes(dict - {ns[|ns| - 1].key}, ns[..|ns| - 1])
  {
    var n := |ns|;
    forall m | m in ns[..n - 1] ensures m.key in dict - {ns[n - 1].key} && (dict - {ns[n - 1].key})[m.key] == m {
      var i :| 0 <= i < n - 1 && ns[..n - 1][i] == m;
      assert order[i] != order[n - 1];
      assert m in ns;
    }
  }

  /** Dropping the node at `j` from the list removes exactly that position,
      since no other node carries its key. */
  lemma WithoutNode<K>(order: seq<K>, ns: seq<Node<K>>, j: nat)
    requires OrderOf(order, ns) && Distinct(order) && j < |ns|
    ensures LruSpec.Without(ns, ns[j]) == ns[..j] + ns[j + 1..]
  {
    NodesUnique(order, ns, j);
    LruSpec.WithoutAt(ns, j);
  }

  /** A hit on the key at position `j` moves it to the front of the order;
      the dictionary stays as it is. */
  lemma GetAbstract<K>(c: LruSpec.Lru<K>, ns: seq<Node<K>>, j: nat)
    requires LruSpec.Inv(c) && OrderOf(c.order, ns) && j < |ns|
    ensures LruSpec.Inv(LruSpec.Get(c, ns[j].key).0)
    ensures OrderOf(LruSpec.Get(c, ns[j].key).0.order, [ns[j]] + (ns[..j] + ns[j + 1..]))
    ensures LruSpec.Get(c, ns[j].key).0.store == c.store
    ensures LruSpec.Get(c, ns[j].key).0.capacity == c.capacity
  {
    var key := ns[j].key;
    assert key == c.order[j] && key in c.store;
    LruSpec.GetKeepsInv(c, key);
    LruSpec.WithoutAt(c.order, j);
    OrderOfRemoveAt(c.order, ns, j);
    OrderOfCons(c.order[..j] + c.order[j + 1..], ns[..j] + ns[j + 1..], ns[j]);
  }

  /** A hit on `key` moves its node to the front of the list: that is the
      abstract `get`, and the node's value is the answer. */
  lemma GetStep<K>(c: LruSpec.Lru<K>, dict: map<K, Node<K>>, ns: seq<Node<K>>, key: K)
    requires Represents(c, dict, ns) && key in dict
    ensures dict[key] in ns
    ensures Represents(LruSpec.Get(c, key).0, dict, [dict[key]] + LruSpec.Without(ns, dict[key]))
    ensures LruSpec.Get(c, key) == (LruSpec.Get(c, key).0, dict[key].value)
    ensures LruSpec.Get(c, key).0.capacity == c.capacity
  {
    var j := NodeOfKey(c, dict, ns, key);
    WithoutNode(c.order, ns, j);
    GetAbstract(c, ns, j);
    IndexesSub(dict, ns, [ns[j]] + (ns[..j] + ns[j + 1..]));
  }


  /** Putting a new node for an uncached key in the dictionary and in front
      of the list is the abstract `Insert`. */
  lemma InsertStep<K>(c: LruSpec.Lru<K>, dict: map<K, Node<K>>, ns: seq<Node<K>>, node: Node<K>)
    requires Represents(c, dict, ns)
    requires node.key !in c.store && |c.store| < c.capacity
    ensures Represents(LruSpec.Insert(c, node.key, node.value), dict[node.key := node], [node] + ns)
    ensures LruSpec.Insert(c, node.key, node.value).capacity == c.capacity
  {
    LruSpec.InsertKeepsInv(c, node.key, node.value);
    OrderOfCons(c.order, ns, node);
    StoreOfUpdate(c.store, dict, node);
    IndexesCons(dict, ns, node);
  }

  /** Evicting drops the last key of the order, which is the tail node's. */
  lemma EvictAbstract<K>(c: LruSpec.Lru<K>, ns: seq<Node<K>>)
    requires LruSpec.Inv(c) && OrderOf(c.order, ns) && ns != []
    ensures LruSpec.Inv(LruSpec.Evict(c))
    ensures OrderOf(LruSpec.Evict(c).order, ns[..|ns| - 1])
    ensures LruSpec.Evict(c).store == c.store - {ns[|ns| - 1].key}
    ensures LruSpec.Evict(c).capacity == c.capacity
  {
    var n := |ns|;
    LruSpec.EvictKeepsInv(c);
    OrderOfRemoveAt(c.order, ns, n - 1);
    assert c.order[..n - 1] + c.order[n..] == c.order[..n - 1];
    assert ns[..n - 1] + ns[n..] == ns[..n - 1];
  }

  /** Deleting the tail node's key from the dictionary and the node from the
      list is the abstract `Evict`. */
  lemma EvictStep<K>(c: LruSpec.Lru<K>, dict: map<K, Node<K>>, ns: seq<Node<K>>)
    requires Represents(c, dict, ns) && ns != []
    ensures c.order != [] && ns[|ns| - 1] in ns
    ensures LruSpec.Without(ns, ns[|ns| - 1]) == ns[..|ns| - 1]
    ensures Represents(LruSpec.Evict(c), dict - {ns[|ns| - 1].key}, ns[..|ns| - 1])
    ensures LruSpec.Evict(c).capacity == c.capacity
  {
    var n := |ns|;
    assert ns[..n - 1] + ns[n..] == ns[..n - 1];
    WithoutNode(c.order, ns, n - 1);
    EvictAbstract(c, ns);
    StoreOfRemove(c.store, dict, ns[n - 1].key);
    IndexesDropLast(c.order, dict, ns);
  }

}
