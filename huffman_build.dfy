/** How `huffman_encoding` in problem_3.py builds its tree: it counts the
    characters, sorts one leaf per character by falling count, merges the
    two last nodes of the work list until one is left, and wraps a lone
    leaf under an inner root. */
module HuffmanBuild {
  import opened Wrappers
  import opened HuffmanTree

  // ---------------------------------------------------------------------
  // Counting

  /** The number of occurrences of each character of `s`. */
  function Tally(s: string): map<char, nat> {
    map c | c in s :: multiset(s)[c]
  }

  /** The distinct characters of `s` in order of first occurrence: the key
      order of the counting dictionary. */
  function FirstOccurrences(s: string): (r: string)
    ensures Distinct(r)
    ensures forall c :: c in r <==> c in s
    decreases |s|
  {
    if s == [] then []
    else
      var p := FirstOccurrences(s[..|s| - 1]);
      assert forall c :: c in s <==> c in s[..|s| - 1] || c == s[|s| - 1] by {
        assert s == s[..|s| - 1] + [s[|s| - 1]];
      }
      if s[|s| - 1] in p then p else p + [s[|s| - 1]]
  }

  /** Appending a character adds one to its count, or gives it count 1. */
  lemma TallySnoc(s: string, c: char)
    ensures Tally(s + [c]) == if c in s then Tally(s)[c := Tally(s)[c] + 1] else Tally(s)[c := 1]
  {
    assert multiset(s + [c]) == multiset(s) + multiset{c};
    assert forall d :: d in s + [c] <==> d in s || d == c;
  }

  /** The counting loop: the dictionary of counts, whose keys are kept in
      order of first insertion. */
  method CountFrequencies(data: string) returns (keys: string, counts: map<char, nat>)
    ensures keys == FirstOccurrences(data) && counts == Tally(data)
  {
    keys := [];
    counts := map[];
    for i := 0 to |data|
      invariant keys == FirstOccurrences(data[..i]) && counts == Tally(data[..i])
    {
      var letter := data[i];
      assert data[..i + 1] == data[..i] + [letter];
      TallySnoc(data[..i], letter);
      if letter in counts {
        counts := counts[letter := counts[letter] + 1];
      } else {
        counts := counts[letter := 1];
        keys := keys + [letter];
      }
    }
    assert data[..|data|] == data;
  }

  // ---------------------------------------------------------------------
  // The work list

  /** One leaf per key, in key order, weighted by its count. */
  function LeafList(keys: string, counts: map<char, nat>): (r: seq<Node>)
    requires forall c :: c in keys ==> c in counts
    ensures |r| == |keys| && forall n :: n in r ==> n.Leaf?
  {
    if keys == [] then [] else [Leaf(keys[0], counts[keys[0]])] + LeafList(keys[1..], counts)
  }

  /** The characters of all leaves below the nodes of `l`, node by node. */
  function AllSymbols(l: seq<Node>): string {
    if l == [] then [] else LeafSymbols(l[0]) + AllSymbols(l[1..])
  }

  /** The sum of the counts of the nodes of `l`. */
  function TotalWeight(l: seq<Node>): nat {
    if l == [] then 0 else l[0].weight + TotalWeight(l[1..])
  }

  lemma {:induction false} AllSymbolsAppend(a: seq<Node>, b: seq<Node>)
    ensures AllSymbols(a + b) == AllSymbols(a) + AllSymbols(b)
  {
    if a != [] {
      assert (a + b)[1..] == a[1..] + b;
      AllSymbolsAppend(a[1..], b);
    } else {
      assert a + b == b;
    }
  }

  lemma {:induction false} TotalWeightAppend(a: seq<Node>, b: seq<Node>)
    ensures TotalWeight(a + b) == TotalWeight(a) + TotalWeight(b)
  {
    if a != [] {
      assert (a + b)[1..] == a[1..] + b;
      TotalWeightAppend(a[1..], b);
    } else {
      assert a + b == b;
    }
  }

  lemma AllSymbolsSplit(s: seq<Node>, i: nat)
    requires i <= |s|
    ensures AllSymbols(s) == AllSymbols(s[..i]) + AllSymbols(s[i..])
  {
    assert s[..i] + s[i..] == s;
    AllSymbolsAppend(s[..i], s[i..]);
  }

  lemma TotalWeightSplit(s: seq<Node>, i: nat)
    requires i <= |s|
    ensures TotalWeight(s) == TotalWeight(s[..i]) + TotalWeight(s[i..])
  {
    assert s[..i] + s[i..] == s;
    TotalWeightAppend(s[..i], s[i..]);
  }

  /** The leaves of the work list carry exactly the keys, in order. */
  lemma {:induction false} LeafListSymbols(keys: string, counts: map<char, nat>)
    requires forall c :: c in keys ==> c in counts
    ensures AllSymbols(LeafList(keys, counts)) == keys
  {
    if keys != [] {
      LeafListSymbols(keys[1..], counts);
    }
  }

  lemma {:induction false} LeafListSnoc(keys: string, counts: map<char, nat>, c: char)
    requires forall k :: k in keys ==> k in counts
    requires c in counts
    ensures LeafList(keys + [c], counts) == LeafList(keys, counts) + [Leaf(c, counts[c])]
  {
    if keys == [] {
      assert keys + [c] == [c];
    } else {
      assert (keys + [c])[1..] == keys[1..] + [c];
      LeafListSnoc(keys[1..], counts, c);
    }
  }

  /** Changing the count of a character that is not a key changes no leaf. */
  lemma {:induction false} LeafListOtherKey(keys: string, counts: map<char, nat>, c: char, v: nat)
    requires forall k :: k in keys ==> k in counts
    requires c !in keys
    ensures LeafList(keys, counts[c := v]) == LeafList(keys, counts)
  {
    if keys != [] {
      LeafListOtherKey(keys[1..], counts, c, v);
    }
  }

  /** Adding one to the count of a key adds one to the total count. */
  lemma {:induction false} LeafListBump(keys: string, counts: map<char, nat>, c: char)
    requires forall k :: k in keys ==> k in counts
    requires Distinct(keys) && c in keys
    ensures TotalWeight(LeafList(keys, counts[c := counts[c] + 1])) == TotalWeight(LeafList(keys, counts)) + 1
  {
    var bumped := counts[c := counts[c] + 1];
    if keys[0] == c {
      assert c !in keys[1..] by {
        forall j | 0 <= j < |keys[1..]|
          ensures keys[1..][j] != c
        {
          assert keys[1..][j] == keys[j + 1];
        }
      }
      LeafListOtherKey(keys[1..], counts, c, counts[c] + 1);
    } else {
      assert Distinct(keys[1..]) by {
        forall i, j | 0 <= i < j < |keys[1..]|
          ensures keys[1..][i] != keys[1..][j]
        {
          assert keys[1..][i] == keys[i + 1] && keys[1..][j] == keys[j + 1];
        }
      }
      LeafListBump(keys[1..], counts, c);
    }
  }

  /** The counts of the work list's leaves add up to the length of the
      input. */
  lemma {:induction false} TallySum(data: string)
    ensures TotalWeight(LeafList(FirstOccurrences(data), Tally(data))) == |data|
    decreases |data|
  {
    if data != [] {
      var init, c := data[..|data| - 1], data[|data| - 1];
      assert data == init + [c];
      var keys, counts := FirstOccurrences(init), Tally(init);
      TallySum(init);
      TallySnoc(init, c);
      if c in init {
        LeafListBump(keys, counts, c);
      } else {
        LeafListSnoc(keys, Tally(data), c);
        LeafListOtherKey(keys, counts, c, 1);
        TotalWeightAppend(LeafList(keys, counts), [Leaf(c, 1)]);
      }
    }
  }

  // ---------------------------------------------------------------------
  // Sorting

  /** The nodes of `s` are in order of falling count. */
  ghost predicate Descending(s: seq<Node>) {
    forall i, j :: 0 <= i < j < |s| ==> s[i].weight >= s[j].weight
  }

  /** Inserts `x` into a list of falling counts after every node whose count
      is at least its own. */
  function InsertByCount(sorted: seq<Node>, x: Node): (r: seq<Node>)
    ensures multiset(r) == multiset(sorted) + multiset{x}
  {
    if sorted == [] then [x]
    else if sorted[0].weight < x.weight then [x] + sorted
    else
      assert sorted == [sorted[0]] + sorted[1..];
      [sorted[0]] + InsertByCount(sorted[1..], x)
  }

  /** `sorted(freq_list, key = lambda x: -x.value[1])`: a stable sort by
      falling count, as an insertion sort over the list from its start. */
  function SortByCount(s: seq<Node>): (r: seq<Node>)
    ensures multiset(r) == multiset(s)
    decreases |s|
  {
    if s == [] then []
    else
      assert s == s[..|s| - 1] + [s[|s| - 1]];
      InsertByCount(SortByCount(s[..|s| - 1]), s[|s| - 1])
  }

  /** A node whose count is at least every count of a falling list can go
      in front of it. */
  lemma DescendingCons(h: Node, t: seq<Node>)
    requires Descending(t) && forall y :: y in t ==> h.weight >= y.weight
    ensures Descending([h] + t)
  {
    forall i, j | 0 <= i < j < |[h] + t|
      ensures ([h] + t)[i].weight >= ([h] + t)[j].weight
    {
      assert ([h] + t)[j] == t[j - 1];
      if i > 0 {
        assert ([h] + t)[i] == t[i - 1];
      }
    }
  }

  lemma {:induction false} InsertKeepsDescending(sorted: seq<Node>, x: Node)
    requires Descending(sorted)
    ensures Descending(InsertByCount(sorted, x))
  {
    if sorted == [] {
    } else if sorted[0].weight < x.weight {
      assert sorted == [sorted[0]] + sorted[1..];
      DescendingCons(x, sorted);
    } else {
      var tail := InsertByCount(sorted[1..], x);
      assert Descending(sorted[1..]);
      InsertKeepsDescending(sorted[1..], x);
      forall y | y in tail
        ensures sorted[0].weight >= y.weight
      {
        assert y in multiset(tail);
      }
      DescendingCons(sorted[0], tail);
    }
  }

  /** The sort leaves the counts falling. */
  lemma {:induction false} SortByCountDescending(s: seq<Node>)
    ensures Descending(SortByCount(s))
    decreases |s|
  {
    if s != [] {
      SortByCountDescending(s[..|s| - 1]);
      InsertKeepsDescending(SortByCount(s[..|s| - 1]), s[|s| - 1]);
    }
  }

  lemma AllSymbolsCons(n: Node, l: seq<Node>)
    ensures AllSymbols([n] + l) == LeafSymbols(n) + AllSymbols(l)
  {
    assert ([n] + l)[1..] == l;
  }

  lemma ConsKeepsMultiset(a: string, t: string, s: string, b: string)
    requires multiset(t) == multiset(s) + multiset(b)
    ensures multiset(a + t) == multiset(a + s) + multiset(b)
  {
  }

  lemma SwapKeepsMultiset(a: string, b: string)
    ensures multiset(a + b) == multiset(b) + multiset(a)
  {
  }

  lemma {:induction false} InsertKeepsSymbols(sorted: seq<Node>, x: Node)
    ensures multiset(AllSymbols(InsertByCount(sorted, x))) == multiset(AllSymbols(sorted)) + multiset(LeafSymbols(x))
  {
    if sorted == [] || sorted[0].weight < x.weight {
      AllSymbolsCons(x, sorted);
      SwapKeepsMultiset(LeafSymbols(x), AllSymbols(sorted));
    } else {
      var head, tail := sorted[0], InsertByCount(sorted[1..], x);
      assert sorted == [head] + sorted[1..];
      AllSymbolsCons(head, sorted[1..]);
      AllSymbolsCons(head, tail);
      InsertKeepsSymbols(sorted[1..], x);
      ConsKeepsMultiset(LeafSymbols(head), AllSymbols(tail), AllSymbols(sorted[1..]), LeafSymbols(x));
    }
  }

  lemma {:induction false} InsertKeepsWeight(sorted: seq<Node>, x: Node)
    ensures TotalWeight(InsertByCount(sorted, x)) == TotalWeight(sorted) + x.weight
  {
    if sorted == [] {
    } else if sorted[0].weight < x.weight {
      assert ([x] + sorted)[1..] == sorted;
    } else {
      var tail := InsertByCount(sorted[1..], x);
      assert ([sorted[0]] + tail)[1..] == tail;
      InsertKeepsWeight(sorted[1..], x);
    }
  }

  /** The sort loses no character. */
  lemma {:induction false} SortKeepsSymbols(s: seq<Node>)
    ensures multiset(AllSymbols(SortByCount(s))) == multiset(AllSymbols(s))
    decreases |s|
  {
    if s != [] {
      var init := s[..|s| - 1];
      var last := s[|s| - 1];
      var sortedInit := SortByCount(init);
      calc {
        multiset(AllSymbols(SortByCount(s)));
        multiset(AllSymbols(InsertByCount(sortedInit, last)));
        { InsertKeepsSymbols(sortedInit, last); }
        multiset(AllSymbols(sortedInit)) + multiset(LeafSymbols(last));
        { SortKeepsSymbols(init); }
        multiset(AllSymbols(init)) + multiset(LeafSymbols(last));
        { AllSymbolsAppend(init, [last]);
          assert AllSymbols([last]) == LeafSymbols(last);
          assert s == init + [last]; }
        multiset(AllSymbols(s));
      }
    }
  }

  /** The sort loses no count. */
  lemma {:induction false} SortKeepsWeight(s: seq<Node>)
    ensures TotalWeight(SortByCount(s)) == TotalWeight(s)
    decreases |s|
  {
    if s != [] {
      var init := s[..|s| - 1];
      var last := s[|s| - 1];
      assert s == init + [last];
      SortKeepsWeight(init);
      InsertKeepsWeight(SortByCount(init), last);
      TotalWeightAppend(init, [last]);
    }
  }

  // ---------------------------------------------------------------------
  // Merging

  /** The first part of a node's `value`: the character of a leaf, the
      characters below an inner node. */
  function Symbols(n: Node): string {
    match n
    case Leaf(c, _) => [c]
    case Branch(_, _, s, _) => s
  }

  /** Every inner node below `n` holds the characters of its leaves and the
      sum of its children's counts. */
  ghost predicate WellBuilt(n: Node) {
    match n
    case Leaf(_, _) => true
    case Branch(left, right, s, w) =>
      s == LeafSymbols(n) && w == left.weight + right.weight && WellBuilt(left) && WellBuilt(right)
  }

  /** The node that replaces two merged nodes. */
  function Join(left: Node, right: Node): Node {
    Branch(left, right, Symbols(left) + Symbols(right), left.weight + right.weight)
  }

  /** The position of the first node of `s` whose count is `w`, or `|s|`. */
  function FirstWithWeight(s: seq<Node>, w: nat): (i: nat)
    ensures i <= |s|
    ensures forall k :: 0 <= k < i ==> s[k].weight != w
    ensures i < |s| ==> s[i].weight == w
  {
    if s == [] then 0
    else if s[0].weight == w then 0
    else
      var j := FirstWithWeight(s[1..], w);
      assert forall k :: 1 <= k < j + 1 ==> s[k] == s[1..][k - 1];
      j + 1
  }

  /** One pass of the building loop: the last node (left) and the one
      before it (right) are replaced by their join, inserted before the
      first node of equal count, or at the end when there is none. */
  function Merge(l: seq<Node>): (r: seq<Node>)
    requires |l| >= 2
    ensures |r| == |l| - 1
  {
    var leftNode := l[|l| - 1];
    var rightNode := l[|l| - 2];
    var rest := l[..|l| - 2];
    var joined := Join(leftNode, rightNode);
    var i := FirstWithWeight(rest, joined.weight);
    rest[..i] + [joined] + rest[i..]
  }

  /** The node the building loop ends with. */
  function Build(l: seq<Node>): Node
    requires |l| >= 1
    decreases |l|
  {
    if |l| == 1 then l[0] else Build(Merge(l))
  }

  /** `Merge(l)` is the rest of the list with the join of the last two
      nodes put in at position `i`. */
  lemma MergeShape(l: seq<Node>) returns (rest: seq<Node>, joined: Node, i: nat)
    requires |l| >= 2
    ensures l == rest + [l[|l| - 2], l[|l| - 1]]
    ensures joined == Join(l[|l| - 1], l[|l| - 2])
    ensures i == FirstWithWeight(rest, joined.weight)
    ensures i <= |rest| && Merge(l) == rest[..i] + [joined] + rest[i..]
  {
    rest := l[..|l| - 2];
    joined := Join(l[|l| - 1], l[|l| - 2]);
    i := FirstWithWeight(rest, joined.weight);
  }

  /** One pass places the join of the last node and the one before it at
      some position `j`: the nodes before `j` are the first nodes of the
      list, none of them with the joined count, and the nodes after it are
      the rest of the list minus the two merged nodes; the node after the
      join, if any, has the joined count. */
  lemma MergePlacement(l: seq<Node>) returns (j: nat)
    requires |l| >= 2
    ensures j <= |l| - 2 && |Merge(l)| == |l| - 1
    ensures Merge(l)[j] == Join(l[|l| - 1], l[|l| - 2])
    ensures Merge(l)[..j] == l[..j] && Merge(l)[j + 1..] == l[j..|l| - 2]
    ensures forall k :: 0 <= k < j ==> Merge(l)[k].weight != Merge(l)[j].weight
    ensures j == |l| - 2 || Merge(l)[j + 1].weight == Merge(l)[j].weight
  {
    var rest, joined, i := MergeShape(l);
    j := i;
    var m := Merge(l);
    assert m[..j] == rest[..i] == l[..j];
    assert m[j + 1..] == rest[i..] == l[j..|l| - 2];
    assert forall k :: 0 <= k < j ==> m[k] == rest[k];
  }

  lemma AllSymbolsPair(a: Node, b: Node)
    ensures AllSymbols([a, b]) == LeafSymbols(a) + LeafSymbols(b)
  {
    assert [a, b][1..] == [b];
    assert AllSymbols([b]) == LeafSymbols(b);
  }

  lemma TotalWeightPair(a: Node, b: Node)
    ensures TotalWeight([a, b]) == a.weight + b.weight
  {
    assert [a, b][1..] == [b];
    assert TotalWeight([b]) == b.weight;
  }

  lemma ShuffleKeepsMultiset(x: string, a: string, b: string, y: string)
    ensures multiset(x + (a + b) + y) == multiset((x + y) + (b + a))
  {
  }

  lemma JoinInSymbols(rest: seq<Node>, a: Node, b: Node, i: nat)
    requires i <= |rest|
    ensures AllSymbols(rest[..i] + [Join(a, b)] + rest[i..])
         == AllSymbols(rest[..i]) + (LeafSymbols(a) + LeafSymbols(b)) + AllSymbols(rest[i..])
  {
    AllSymbolsAppend(rest[..i] + [Join(a, b)], rest[i..]);
    AllSymbolsAppend(rest[..i], [Join(a, b)]);
    assert AllSymbols([Join(a, b)]) == LeafSymbols(Join(a, b));
  }

  lemma PairAfterSymbols(rest: seq<Node>, a: Node, b: Node, i: nat)
    requires i <= |rest|
    ensures AllSymbols(rest + [b, a])
         == (AllSymbols(rest[..i]) + AllSymbols(rest[i..])) + (LeafSymbols(b) + LeafSymbols(a))
  {
    AllSymbolsSplit(rest, i);
    AllSymbolsAppend(rest, [b, a]);
    AllSymbolsPair(b, a);
  }

  /** Putting the join of `a` and `b` anywhere into `rest` loses no
      character. */
  lemma JoinInKeepsSymbols(rest: seq<Node>, a: Node, b: Node, i: nat)
    requires i <= |rest|
    ensures multiset(AllSymbols(rest[..i] + [Join(a, b)] + rest[i..])) == multiset(AllSymbols(rest + [b, a]))
  {
    JoinInSymbols(rest, a, b, i);
    PairAfterSymbols(rest, a, b, i);
    ShuffleKeepsMultiset(AllSymbols(rest[..i]), LeafSymbols(a), LeafSymbols(b), AllSymbols(rest[i..]));
  }

  /** Putting the join of `a` and `b` anywhere into `rest` loses no count. */
  lemma JoinInKeepsWeight(rest: seq<Node>, a: Node, b: Node, i: nat)
    requires i <= |rest|
    ensures TotalWeight(rest[..i] + [Join(a, b)] + rest[i..]) == TotalWeight(rest + [b, a])
  {
    var joined := Join(a, b);
    calc {
      TotalWeight(rest[..i] + [joined] + rest[i..]);
      { TotalWeightAppend(rest[..i] + [joined], rest[i..]);
        TotalWeightAppend(rest[..i], [joined]); }
      TotalWeight(rest[..i]) + joined.weight + TotalWeight(rest[i..]);
      { TotalWeightSplit(rest, i); }
      TotalWeight(rest) + joined.weight;
      { TotalWeightAppend(rest, [b, a]);
        TotalWeightPair(b, a); }
      TotalWeight(rest + [b, a]);
    }
  }

  /** A merge loses no character. */
  lemma MergeKeepsSymbols(l: seq<Node>)
    requires |l| >= 2
    ensures multiset(AllSymbols(Merge(l))) == multiset(AllSymbols(l))
  {
    var rest, joined, i := MergeShape(l);
    JoinInKeepsSymbols(rest, l[|l| - 1], l[|l| - 2], i);
  }

  /** A merge loses no count. */
  lemma MergeKeepsWeight(l: seq<Node>)
    requires |l| >= 2
    ensures TotalWeight(Merge(l)) == TotalWeight(l)
  {
    var rest, joined, i := MergeShape(l);
    JoinInKeepsWeight(rest, l[|l| - 1], l[|l| - 2], i);
  }

  lemma MergeKeepsWellBuilt(l: seq<Node>)
    requires |l| >= 2 && forall n :: n in l ==> WellBuilt(n)
    ensures forall n :: n in Merge(l) ==> WellBuilt(n)
  {
    var leftNode := l[|l| - 1];
    var rightNode := l[|l| - 2];
    assert leftNode in l && rightNode in l;
    assert Symbols(leftNode) == LeafSymbols(leftNode);
    assert Symbols(rightNode) == LeafSymbols(rightNode);
    assert WellBuilt(Join(leftNode, rightNode));
  }

  /** The building loop loses no character and no count: the final node
      holds all leaves of the work list and their total count. */
  lemma {:induction false} BuildKeepsTotals(l: seq<Node>)
    requires |l| >= 1
    ensures multiset(LeafSymbols(Build(l))) == multiset(AllSymbols(l))
    ensures TotalWeight([Build(l)]) == TotalWeight(l)
    decreases |l|
  {
    if |l| == 1 {
      assert AllSymbols(l) == LeafSymbols(l[0]) + AllSymbols([]);
    } else {
      MergeKeepsSymbols(l);
      MergeKeepsWeight(l);
      BuildKeepsTotals(Merge(l));
    }
  }

  /** Every inner node the building loop makes is well built. */
  lemma {:induction false} BuildWellBuilt(l: seq<Node>)
    requires |l| >= 1 && forall n :: n in l ==> WellBuilt(n)
    ensures WellBuilt(Build(l))
    decreases |l|
  {
    if |l| > 1 {
      MergeKeepsWellBuilt(l);
      BuildWellBuilt(Merge(l));
    }
  }

  /** `Merge` on a list split into the rest and its last two nodes. */
  lemma MergeAt(before: seq<Node>, rest: seq<Node>, index: nat)
    requires |before| >= 2 && rest == before[..|before| - 2]
    requires index == FirstWithWeight(rest, Join(before[|before| - 1], before[|before| - 2]).weight)
    ensures Merge(before) == rest[..index] + [Join(before[|before| - 1], before[|before| - 2])] + rest[index..]
  {
  }

  /** The search loop of one pass: the position of the first node whose
      count is `w`, or the length of the list when there is none. */
  method FindSlot(list: seq<Node>, w: nat) returns (index: nat)
    ensures index == FirstWithWeight(list, w)
  {
    index := 0;
    while index < |list| && list[index].weight != w
      invariant 0 <= index <= |list|
      invariant forall k :: 0 <= k < index ==> list[k].weight != w
    {
      index := index + 1;
    }
  }

  /** One pass of the building loop: the two last nodes are popped,
      joined, and the join goes back in before the first node of equal
      count, or at the end. */
  method MergePass(freqList: seq<Node>) returns (list: seq<Node>)
    requires |freqList| >= 2
    ensures list == Merge(freqList)
  {
    list := freqList;
    var leftNode := list[|list| - 1];
    list := list[..|list| - 1];
    var rightNode := list[|list| - 1];
    list := list[..|list| - 1];
    assert list == freqList[..|freqList| - 2];
    var newNode := Branch(leftNode, rightNode, Symbols(leftNode) + Symbols(rightNode), leftNode.weight + rightNode.weight);
    var index := FindSlot(list, newNode.weight);
    MergeAt(freqList, list, index);
    if index < |list| {
      list := list[..index] + [newNode] + list[index..];
    } else {
      assert list[index..] == [];
      list := list + [newNode];
    }
  }

  /** The building loop over the work list. */
  method BuildTree(freqList: seq<Node>) returns (root: Node)
    requires |freqList| >= 1
    ensures root == Build(freqList)
  {
    var list := freqList;
    while |list| > 1
      invariant |list| >= 1 && Build(list) == Build(freqList)
      decreases |list|
    {
      list := MergePass(list);
    }
    root := list[0];
  }

  /** A lone leaf becomes both children of a new root that carries the
      leaf's own character and count. */
  function Wrap(root: Node): (r: Node)
    ensures r.Branch?
    ensures forall c :: c in LeafSymbols(r) <==> c in LeafSymbols(root)
  {
    if root.Leaf? then Branch(root, root, Symbols(root), root.weight) else root
  }
}
