/** The doubly linked usage list of problem_1.py as heap objects: nodes
    with `prev`/`next` links that the list relinks in place. */
module LruList {
  import LruSpec

  /** One cached entry. The source gives `key` and `value` setters but no
      caller uses them, so both are fixed at construction. */
  class Node<K> {
    const key: K
    const value: int
    var next: Node?<K>
    var prev: Node?<K>

    constructor (key: K, value: int)
      ensures this.key == key && this.value == value
      ensures next == null && prev == null
    {
      this.key := key;
      this.value := value;
      next := null;
      prev := null;
    }
  }

  /** `ns` is linked in both directions: each node's `next` is its
      successor (the last one's is null), and each node's `prev`, but the
      first one's, is its predecessor. */
  ghost predicate Chain<K>(ns: seq<Node<K>>)
    reads ns
  {
    && (ns != [] ==> ns[|ns| - 1].next == null)
    && (forall i :: 0 <= i < |ns| - 1 ==> ns[i].next == ns[i + 1])
    && (forall i :: 0 < i < |ns| ==> ns[i].prev == ns[i - 1])
  }

  /** A chain visits no node twice: a repeated node would make the chain
      run on past its last node. */
  lemma {:induction false} ChainUnique<K>(ns: seq<Node<K>>, a: nat, b: nat)
    requires Chain(ns) && a < b < |ns|
    ensures ns[a] != ns[b]
    decreases |ns| - b
  {
    assert ns[a].next == ns[a + 1];
    if b < |ns| - 1 {
      ChainUnique(ns, a + 1, b + 1);
    }
  }

  lemma ChainUniqueAt<K>(ns: seq<Node<K>>, j: nat)
    requires Chain(ns) && j < |ns|
    ensures forall i :: 0 <= i < |ns| && i != j ==> ns[i] != ns[j]
  {
    forall i | 0 <= i < |ns| && i != j ensures ns[i] != ns[j] {
      if i < j {
        ChainUnique(ns, i, j);
      } else {
        ChainUnique(ns, j, i);
      }
    }
  }

  /** In a chain of two or more nodes every node has a link. */
  lemma NodeHasLink<K>(ns: seq<Node<K>>, j: nat)
    requires Chain(ns) && j < |ns| && |ns| > 1
    ensures ns[j].prev != null || ns[j].next != null
  {
    if j > 0 {
      assert ns[j].prev == ns[j - 1];
    } else {
      assert ns[j].next == ns[j + 1];
    }
  }

  /** The usage list: `nodes` is the chain from `head` to `tail`. The source
      never clears a node's own links when it unlinks it, and `prepend`
      never sets the new head's `prev`, so the head may keep a stale `prev`:
      `Chain` allows it. */
  class DoublyLinkedList<K> {
    var head: Node?<K>
    var tail: Node?<K>
    ghost var nodes: seq<Node<K>>

    ghost predicate Linked()
      reads this, nodes
    {
      && Chain(nodes)
      && (nodes == [] ==> head == null && tail == null)
      && (nodes != [] ==> head == nodes[0] && tail == nodes[|nodes| - 1])
    }

    /** `remove` tells the sole node apart by both of its links being empty,
        so it needs a sole node to have no stale `prev`. */
    ghost predicate Valid()
      reads this, nodes
    {
      Linked() && (|nodes| == 1 ==> nodes[0].prev == null)
    }

    constructor ()
      ensures Valid() && nodes == []
    {
      head := null;
      tail := null;
      nodes := [];
    }

    /** `prepend`: `node` becomes the head (and also the tail of an empty
        list); the other nodes keep their order. On an empty list the source
        does not touch the node's links, so they must already be empty. */
    method Prepend(node: Node<K>)
      requires Linked()
      requires node !in nodes
      requires nodes == [] ==> node.next == null && node.prev == null
      modifies this, node, nodes
      ensures Valid()
      ensures nodes == [node] + old(nodes)
    {
      ghost var ns := nodes;
      if head == null {
        assert Chain([node]);
        head := node;
        tail := head;
      } else {
        ChainUniqueAt(ns, 0);
        node.next := head;
        head.prev := node;
        assert Chain([node] + ns) by {
          forall i | 0 < i < |ns| ensures ns[i].prev == ns[i - 1] {
            assert ns[i] != ns[0];
          }
        }
        head := node;
      }
      nodes := [node] + ns;
    }

    /** `remove`: `node` leaves the chain and the others keep their order;
        the list is empty when it was the only node. The list afterwards is
        `Linked` but may hold a sole node with a stale `prev` (when the tail
        of a two-node list is removed and the head still carries the `prev`
        of an earlier move), which only a following `Prepend` repairs. The
        branch taken is the case of `RemoveEnds` that the node's links pick,
        and each branch's relinking is one of the methods below. */
    method Remove(node: Node<K>)
      requires Valid()
      requires node in nodes
      modifies this, nodes
      ensures Linked()
      ensures nodes == LruSpec.Without(old(nodes), node)
      ensures nodes == [] ==> node.next == null && node.prev == null
      ensures (head, tail) == RemoveEnds(node, old(node.prev), old(node.next), old(head), old(tail))
    {
      ghost var j :| 0 <= j < |nodes| && nodes[j] == node;
      ghost var ns := nodes;
      ChainUniqueAt(ns, j);
      LruSpec.WithoutAt(ns, j);
      if |ns| > 1 {
        NodeHasLink(ns, j);
      }
      var previousNode := node.prev;
      var nextNode := node.next;
      if previousNode == null && nextNode == null {
        head := null;
        tail := null;
        nodes := [];
      } else if node == tail {
        assert j == |ns| - 1 && j > 0 && previousNode == ns[j - 1];
        assert ns[..j] + ns[j + 1..] == ns[..j];
        UnlinkTail(previousNode);
      } else if node == head {
        assert j == 0 && |ns| >= 2 && nextNode == ns[1];
        assert ns[..j] + ns[j + 1..] == ns[1..];
        UnlinkHead(nextNode);
      } else {
        assert 0 < j < |ns| - 1;
        assert previousNode == ns[j - 1] && nextNode == ns[j + 1];
        Bypass(j, previousNode, nextNode);
      }
    }

    /** On a valid list `remove` never writes through a missing neighbour:
        the branch it takes always has the links it uses. */
    lemma RemoveIsSafe(node: Node<K>)
      requires Valid() && node in nodes
      ensures !RemoveRaises(node, node.prev, node.next, head, tail)
    {
      var j :| 0 <= j < |nodes| && nodes[j] == node;
      ChainUniqueAt(nodes, j);
      if |nodes| > 1 {
        NodeHasLink(nodes, j);
        if 0 < j {
          assert node.prev == nodes[j - 1];
        }
        if j < |nodes| - 1 {
          assert node.next == nodes[j + 1];
        }
      }
    }

    /** The `node == tail` branch of `remove`: its predecessor becomes the tail. */
    method UnlinkTail(previousNode: Node<K>)
      requires Linked() && |nodes| >= 2 && previousNode == nodes[|nodes| - 2]
      modifies this, previousNode
      ensures Linked() && nodes == old(nodes[..|nodes| - 1])
    {
      ghost var ns := nodes;
      ghost var rest := ns[..|ns| - 1];
      ChainUniqueAt(ns, |ns| - 2);
      previousNode.next := null;
      assert Chain(rest) by {
        forall i | 0 <= i < |rest| - 1 ensures rest[i].next == rest[i + 1] {
          assert rest[i] == ns[i] && rest[i + 1] == ns[i + 1] && ns[i] != previousNode;
        }
      }
      tail := previousNode;
      nodes := rest;
    }

    /** The `node == head` branch of `remove`: its successor becomes the head. */
    method UnlinkHead(nextNode: Node<K>)
      requires Linked() && |nodes| >= 2 && nextNode == nodes[1]
      modifies this, nextNode
      ensures Linked() && nodes == old(nodes[1..])
    {
      ghost var ns := nodes;
      ghost var rest := ns[1..];
      ChainUniqueAt(ns, 1);
      nextNode.prev := null;
      assert Chain(rest) by {
        forall i | 0 < i < |rest| ensures rest[i].prev == rest[i - 1] {
          assert rest[i] == ns[i + 1] && rest[i - 1] == ns[i] && ns[i + 1] != nextNode;
        }
      }
      head := nextNode;
      nodes := rest;
    }

    /** The interior branch of `remove`: the neighbours of the node at `j`
        are linked to each other. */
    method Bypass(ghost j: nat, previousNode: Node<K>, nextNode: Node<K>)
      requires Linked() && 0 < j < |nodes| - 1
      requires previousNode == nodes[j - 1] && nextNode == nodes[j + 1]
      modifies this, previousNode, nextNode
      ensures Linked() && nodes == old(nodes[..j] + nodes[j + 1..])
    {
      ghost var ns := nodes;
      ghost var rest := ns[..j] + ns[j + 1..];
      assert forall i :: 0 <= i < |rest| ==> rest[i] == if i < j then ns[i] else ns[i + 1];
      ChainUniqueAt(ns, j - 1);
      ChainUniqueAt(ns, j + 1);
      previousNode.next := nextNode;
      nextNode.prev := previousNode;
      assert Chain(rest) by {
        forall i | 0 <= i < |rest| - 1 ensures rest[i].next == rest[i + 1] {
          if i != j - 1 {
            assert rest[i] != previousNode;
          }
        }
        forall i | 0 < i < |rest| ensures rest[i].prev == rest[i - 1] {
          if i != j {
            assert rest[i] != nextNode;
          }
        }
      }
      nodes := rest;
    }
  }

  /** The `head` and `tail` that `remove` leaves, as written: the branch is
      chosen from the node's own `prev` and `next` and from the list's ends. */
  function RemoveEnds<K>(node: Node<K>, prev: Node?<K>, next: Node?<K>, head: Node?<K>, tail: Node?<K>): (Node?<K>, Node?<K>) {
    if prev == null && next == null then (null, null)
    else if node == tail then (head, prev)
    else if node == head then (next, tail)
    else (head, tail)
  }

  /** A sole node with no predecessor is told apart as the sole node: the
      list is left empty. */
  lemma SoleRemoveEmpties<K>(node: Node<K>)
    ensures RemoveEnds(node, null, null, node, node) == (null, null)
  {
  }

  /** A sole node that still carries a stale `prev` is taken for the tail of
      a longer list: the stale predecessor becomes the tail and `head` stays
      on the removed node, so the list is not emptied. */
  lemma StaleSoleRemove<K>(node: Node<K>, stale: Node<K>)
    ensures RemoveEnds(node, stale, null, node, node) == (node, stale)
  {
  }

  /** Whether `remove`, as written, writes through a neighbour that is
      missing: the tail branch writes through `prev`, the head branch
      through `next`, and the interior branch through both. */
  predicate RemoveRaises<K>(node: Node<K>, prev: Node?<K>, next: Node?<K>, head: Node?<K>, tail: Node?<K>) {
    if prev == null && next == null then false
    else if node == tail then prev == null
    else if node == head then next == null
    else prev == null || next == null
  }

  /** `prepend` as written, on the list's ends and the node's own links,
      giving the new `head`, `tail`, `node.prev` and `node.next`: on an
      empty list the node becomes head and tail and keeps the links it had;
      otherwise it goes in front of the head. Its `prev` is never set. */
  function PrependLinks<K>(node: Node<K>, prev: Node?<K>, next: Node?<K>, head: Node?<K>, tail: Node?<K>): (Node?<K>, Node?<K>, Node?<K>, Node?<K>) {
    if head == null then (node, node, prev, next) else (node, tail, prev, head)
  }

  /** A node removed earlier as a head keeps its stale `next`. Prepended to
      an empty list, it becomes the sole node with that `next`; removing it
      then takes the tail branch with no predecessor to write through. */
  lemma StaleNextRemove<K>(node: Node<K>, stale: Node<K>)
    ensures var (head, tail, prev, next) := PrependLinks(node, null, stale, null, null);
      && head == node && tail == node && next == stale
      && RemoveEnds(node, prev, next, head, tail) == (node, null)
      && RemoveRaises(node, prev, next, head, tail)
  {
  }
}
