/** The singly linked list of problem_6.py and the set operations built on
    it: `union` and `intersection` turn both lists into sets, combine the
    sets and turn the result back into a new list. */
module LinkedSets {
  import opened Wrappers

  /** The values the lists hold; the exercise stores integers. */
  type Value = int

  /** `Node`: a value, never changed after the node is made, and the link
      to the next node. */
  class Node {
    const value: Value
    var next: Node?

    constructor (value: Value)
      ensures this.value == value && next == null
    {
      this.value := value;
      next := null;
    }
  }

  /** The values of a sequence, as a set: the reference the set
      operations are stated against. */
  function Elements(xs: seq<Value>): set<Value> {
    set x | x in xs
  }

  /** The elements are the values the sequence holds. */
  lemma ElementsMembers(xs: seq<Value>)
    ensures forall y :: y in xs <==> y in Elements(xs)
  {
  }

  /** A sequence without repeats has as many distinct values as elements. */
  lemma {:induction false} DistinctCard(xs: seq<Value>)
    requires Distinct(xs)
    ensures |Elements(xs)| == |xs|
  {
    if xs != [] {
      var init := xs[..|xs| - 1];
      DistinctCard(init);
      assert Elements(xs) == Elements(init) + {xs[|xs| - 1]};
      assert xs[|xs| - 1] !in init;
    }
  }

  /** A non-empty set has an element to take out. */
  lemma HasElement(s: set<Value>)
    requires s != {}
    ensures exists x :: x in s
  {
    if forall x :: x !in s {
      assert false;
    }
  }

  /** `LinkedList`: `head` starts a list of nodes joined by `next`. */
  class LinkedList {
    var head: Node?
    /** The nodes from the head onwards. */
    ghost var nodes: seq<Node>
    ghost var Repr: set<object>

    /** `head` starts a null-terminated list through `next` that visits
        `nodes` in order, each node once. */
    ghost predicate Valid()
      reads this, Repr
    {
      && this in Repr
      && (forall i :: 0 <= i < |nodes| ==> nodes[i] in Repr)
      && Distinct(nodes)
      && (if nodes == [] then head == null else head == nodes[0])
      && (forall i :: 0 <= i < |nodes| - 1 ==> nodes[i].next == nodes[i + 1])
      && (nodes != [] ==> nodes[|nodes| - 1].next == null)
    }

    /** The values stored in the list, from the head onwards. */
    ghost function Values(): seq<Value>
      reads this
    {
      seq(|nodes|, i requires 0 <= i < |nodes| reads this => nodes[i].value)
    }

    constructor ()
      ensures Valid() && fresh(Repr) && Values() == []
    {
      head := null;
      nodes := [];
      Repr := {this};
    }

    /** `append`: a node with `value` goes after the last node, or becomes
        the head of an empty list. */
    method Append(value: Value)
      requires Valid()
      modifies Repr
      ensures Valid() && fresh(Repr - old(Repr))
      ensures Values() == old(Values()) + [value]
    {
      if head == null {
        head := new Node(value);
        nodes := [head];
        Repr := Repr + {head};
        return;
      }
      var node := head;
      ghost var i := 0;
      while node.next != null
        modifies {}
        invariant 0 <= i < |nodes| && node == nodes[i]
        invariant i < |nodes| - 1 ==> node.next == nodes[i + 1]
        decreases |nodes| - i
      {
        node := node.next;
        i := i + 1;
      }
      var n := new Node(value);
      node.next := n;
      nodes := nodes + [n];
      Repr := Repr + {n};
    }

    /** `size`: the number of nodes reached from the head. */
    method Size() returns (size: nat)
      requires Valid()
      ensures size == |Values()|
    {
      size := 0;
      var node := head;
      while node != null
        invariant 0 <= size <= |nodes|
        invariant node == if size < |nodes| then nodes[size] else null
        decreases |nodes| - size
      {
        size := size + 1;
        node := node.next;
      }
    }
  }

  /** `list_to_set`: the values met walking the list. */
  method ListToSet(list: LinkedList) returns (s: set<Value>)
    requires list.Valid()
    ensures s == Elements(list.Values())
  {
    s := {};
    var node := list.head;
    ghost var i := 0;
    while node != null
      invariant 0 <= i <= |list.nodes|
      invariant node == if i < |list.nodes| then list.nodes[i] else null
      invariant s == Elements(list.Values()[..i])
      decreases |list.nodes| - i
    {
      assert list.Values()[..i + 1] == list.Values()[..i] + [node.value];
      s := s + {node.value};
      node := node.next;
      i := i + 1;
    }
    assert list.Values()[..i] == list.Values();
  }

  /** `set_to_list`: a new list holding each element of the set once, in
      whatever order the set yields them. */
  method SetToList(s: set<Value>) returns (list: LinkedList)
    ensures list.Valid() && fresh(list.Repr)
    ensures Elements(list.Values()) == s && Distinct(list.Values())
    ensures |list.Values()| == |s|
  {
    list := new LinkedList();
    var rest := s;
    while rest != {}
      invariant list.Valid() && fresh(list.Repr)
      invariant rest <= s && forall y :: y in list.Values() <==> y in s && y !in rest
      invariant Distinct(list.Values())
      invariant |list.Values()| + |rest| == |s|
      decreases rest
    {
      HasElement(rest);
      var x :| x in rest;
      list.Append(x);
      rest := rest - {x};
    }
    ElementsMembers(list.Values());
    forall y ensures y in Elements(list.Values()) <==> y in s {
      assert y !in rest;
    }
  }

  /** `union`: a new list holding, once each, the values found in either
      list. */
  method Union(list1: LinkedList, list2: LinkedList) returns (list: LinkedList)
    requires list1.Valid() && list2.Valid()
    ensures list.Valid() && fresh(list.Repr)
    ensures Elements(list.Values()) == Elements(list1.Values()) + Elements(list2.Values())
    ensures Distinct(list.Values()) && |list.Values()| == |Elements(list1.Values()) + Elements(list2.Values())|
  {
    var set1 := ListToSet(list1);
    var set2 := ListToSet(list2);
    list := SetToList(set1 + set2);
  }

  /** `intersection`: a new list holding, once each, the values found in
      both lists. */
  method Intersection(list1: LinkedList, list2: LinkedList) returns (list: LinkedList)
    requires list1.Valid() && list2.Valid()
    ensures list.Valid() && fresh(list.Repr)
    ensures Elements(list.Values()) == Elements(list1.Values()) * Elements(list2.Values())
    ensures Distinct(list.Values()) && |list.Values()| == |Elements(list1.Values()) * Elements(list2.Values())|
  {
    var set1 := ListToSet(list1);
    var set2 := ListToSet(list2);
    list := SetToList(set1 * set2);
  }
}
