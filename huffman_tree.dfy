/** The coding tree of problem_3.py, the code table read off it by
    `traverse`, and `huffman_decoding`, which walks the tree bit by bit. */
module HuffmanTree {
  import opened Wrappers

  /** A tree node. A leaf holds a character and the number of times it
      occurs; an inner node holds its two children, the characters below it
      and their total count (the pair the source keeps in `value`). */
  datatype Node =
    | Leaf(symbol: char, weight: nat)
    | Branch(left: Node, right: Node, symbols: string, weight: nat)

  /** `Tree`: the tree of an empty input has a root with neither children
      nor a character; any other tree has a proper root. */
  datatype Tree = EmptyTree | Tree(root: Node)

  /** Why decoding fails: a step to a child that does not exist, or a leaf
      without a character. */
  datatype DecodeError = MissingChild | MissingValue

  /** The characters of the leaves below `n`, left to right. */
  function LeafSymbols(n: Node): string {
    match n
    case Leaf(c, _) => [c]
    case Branch(left, right, _, _) => LeafSymbols(left) + LeafSymbols(right)
  }

  /** The node reached from `n` by going left on '0' and right on '1'. */
  function Follow(n: Node, path: string): Option<Node>
    decreases |path|
  {
    if path == [] then Some(n)
    else if n.Branch? && path[0] == '0' then Follow(n.left, path[1..])
    else if n.Branch? && path[0] == '1' then Follow(n.right, path[1..])
    else None
  }

  /** `path` leads from `n` to a leaf holding `c`. */
  predicate Reaches(n: Node, path: string, c: char) {
    var f := Follow(n, path);
    f.Some? && f.value.Leaf? && f.value.symbol == c
  }

  /** `code` starts with `path`, and the rest of it leads from `n` to a leaf
      holding `c`. */
  predicate CodeBelow(n: Node, path: string, code: string, c: char) {
    |path| <= |code| && code[..|path|] == path && Reaches(n, code[|path|..], c)
  }

  /** A path that can be followed spells only '0' and '1'. */
  lemma {:induction false} FollowBits(n: Node, path: string)
    requires Follow(n, path).Some?
    ensures forall i :: 0 <= i < |path| ==> path[i] == '0' || path[i] == '1'
    decreases |path|
  {
    if path != [] {
      FollowBits(if path[0] == '0' then n.left else n.right, path[1..]);
      assert forall i :: 1 <= i < |path| ==> path[i] == path[1..][i - 1];
    }
  }

  /** Two paths to leaves, one a prefix of the other, are the same path to
      the same leaf: a leaf has no children to go on to. */
  lemma {:induction false} ReachesPrefix(n: Node, p: string, q: string, c: char, d: char)
    requires Reaches(n, p, c) && Reaches(n, q, d) && p <= q
    ensures p == q && c == d
    decreases |p|
  {
    if p != [] {
      assert q[0] == p[0];
      var child := if p[0] == '0' then n.left else n.right;
      ReachesPrefix(child, p[1..], q[1..], c, d);
    }
  }

  /** `traverse`: records for each leaf below `n` the path to it, in
      `table`, visiting the left subtree first, so the right subtree's entry
      wins when a character sits in both. A leaf reached by the empty path
      gets the code "0". */
  function Traverse(n: Node, path: string, table: map<char, string>): (r: map<char, string>)
    ensures forall c :: c in r <==> c in table || c in LeafSymbols(n)
  {
    match n
    case Leaf(c, _) => table[c := if path == "" then "0" else path]
    case Branch(left, right, _, _) =>
      Traverse(right, path + "1", Traverse(left, path + "0", table))
  }

  /** A code below a child, extended by the step to that child, is a code
      below the parent. */
  lemma CodeBelowChild(n: Node, path: string, code: string, c: char)
    requires n.Branch?
    ensures CodeBelow(n.left, path + "0", code, c) ==> CodeBelow(n, path, code, c)
    ensures CodeBelow(n.right, path + "1", code, c) ==> CodeBelow(n, path, code, c)
  {
    if |path| < |code| {
      var rest := code[|path|..];
      assert rest[0] == code[|path|];
      assert rest[1..] == code[|path| + 1..];
      assert code[..|path| + 1] == code[..|path|] + [code[|path|]];
    }
  }

  /** Every entry `traverse` writes for a leaf below `n` is `path` followed
      by a path to that leaf; entries for other characters are untouched. */
  lemma {:induction false} TraverseCodes(n: Node, path: string, table: map<char, string>)
    requires path != [] || n.Branch?
    ensures forall c :: c in LeafSymbols(n) ==> CodeBelow(n, path, Traverse(n, path, table)[c], c)
    ensures forall c :: c in table && c !in LeafSymbols(n) ==> Traverse(n, path, table)[c] == table[c]
  {
    match n
    case Leaf(c, _) =>
      assert path[..|path|] == path && path[|path|..] == [];
    case Branch(left, right, _, _) =>
      var t1 := Traverse(left, path + "0", table);
      var r := Traverse(right, path + "1", t1);
      TraverseCodes(left, path + "0", table);
      TraverseCodes(right, path + "1", t1);
      forall c | c in LeafSymbols(n)
        ensures CodeBelow(n, path, r[c], c)
      {
        CodeBelowChild(n, path, r[c], c);
      }
  }

  /** The codes of a tree whose root is an inner node lead from the root to
      their own characters. */
  lemma RootCodes(root: Node)
    requires root.Branch?
    ensures forall c :: c in LeafSymbols(root) ==> c in Traverse(root, "", map[])
    ensures forall c :: c in LeafSymbols(root) ==> Reaches(root, Traverse(root, "", map[])[c], c)
  {
    var r := Traverse(root, "", map[]);
    TraverseCodes(root, "", map[]);
    assert forall c :: c in LeafSymbols(root) ==> r[c][0..] == r[c];
  }

  /** No code in the table of a tree whose root is an inner node is a prefix
      of another character's code. */
  lemma PrefixFree(root: Node)
    requires root.Branch?
    ensures forall c, d :: c in LeafSymbols(root) && d in LeafSymbols(root) && c != d ==>
      !(Traverse(root, "", map[])[c] <= Traverse(root, "", map[])[d])
  {
    var r := Traverse(root, "", map[]);
    RootCodes(root);
    forall c, d | c in LeafSymbols(root) && d in LeafSymbols(root) && r[c] <= r[d]
      ensures c == d
    {
      ReachesPrefix(root, r[c], r[d], c, d);
    }
  }

  /** Every code in the table spells only '0' and '1'. */
  lemma CodesAreBits(root: Node)
    requires root.Branch?
    ensures forall c, i :: c in LeafSymbols(root) && 0 <= i < |Traverse(root, "", map[])[c]| ==>
      Traverse(root, "", map[])[c][i] == '0' || Traverse(root, "", map[])[c][i] == '1'
  {
    var r := Traverse(root, "", map[]);
    RootCodes(root);
    forall c | c in LeafSymbols(root)
      ensures forall i :: 0 <= i < |r[c]| ==> r[c][i] == '0' || r[c][i] == '1'
    {
      FollowBits(root, r[c]);
    }
  }

  /** One pass of the decoding loop at `curr` on character `bit`: '0' and
      '1' go to the left and right child, anything else stays put; a leaf
      reached emits its character and decoding restarts at the root. */
  function Step(root: Node, curr: Node, bit: char): Result<(Node, string), DecodeError> {
    var next: Result<Node, DecodeError> :=
      if bit == '0' then (if curr.Branch? then Ok(curr.left) else Err(MissingChild))
      else if bit == '1' then (if curr.Branch? then Ok(curr.right) else Err(MissingChild))
      else Ok(curr);
    if next.Err? then Err(next.error)
    else if next.value.Leaf? then Ok((root, [next.value.symbol]))
    else Ok((next.value, []))
  }

  /** Output `p` followed by the outcome `r`; a failure stays a failure. */
  function Prefixed(p: string, r: Result<string, DecodeError>): Result<string, DecodeError> {
    if r.Ok? then Ok(p + r.value) else r
  }

  lemma PrefixedPrefixed(p: string, q: string, r: Result<string, DecodeError>)
    ensures Prefixed(p, Prefixed(q, r)) == Prefixed(p + q, r)
  {
    if r.Ok? {
      assert p + (q + r.value) == (p + q) + r.value;
    }
  }

  lemma PrefixedNothing(r: Result<string, DecodeError>)
    ensures Prefixed([], r) == r
  {
    if r.Ok? {
      assert [] + r.value == r.value;
    }
  }

  /** Decoding `bits` from node `curr` of the tree rooted at `root`. Each
      bit emits at most one character. */
  function Walk(root: Node, curr: Node, bits: string): (r: Result<string, DecodeError>)
    ensures r.Ok? ==> |r.value| <= |bits|
    decreases |bits|
  {
    if bits == [] then Ok([])
    else
      match Step(root, curr, bits[0])
      case Err(e) => Err(e)
      case Ok((next, out)) => Prefixed(out, Walk(root, next, bits[1..]))
  }

  /** What `huffman_decoding` returns, or the error it raises. On the empty
      tree the first character fails: a bit steps to a child that does not
      exist, anything else appends the missing character of the root. */
  function Decoding(tree: Tree, bits: string): Result<string, DecodeError> {
    match tree
    case EmptyTree =>
      if bits == [] then Ok([])
      else if bits[0] == '0' || bits[0] == '1' then Err(MissingChild)
      else Err(MissingValue)
    case Tree(root) => Walk(root, root, bits)
  }

  /** Following a character's code from an inner node of the tree emits
      exactly that character and returns to the root. */
  lemma {:induction false} WalkCode(root: Node, curr: Node, code: string, c: char, rest: string)
    requires Reaches(curr, code, c) && curr.Branch?
    ensures Walk(root, curr, code + rest) == Prefixed([c], Walk(root, root, rest))
    decreases |code|
  {
    assert code != [];
    var child := if code[0] == '0' then curr.left else curr.right;
    assert Follow(curr, code) == Follow(child, code[1..]);
    assert (code + rest)[0] == code[0] && (code + rest)[1..] == code[1..] + rest;
    if code[1..] == [] {
      assert Step(root, curr, code[0]) == Ok((root, [c]));
      assert code[1..] + rest == rest;
    } else {
      assert child.Branch?;
      assert Step(root, curr, code[0]) == Ok((child, []));
      WalkCode(root, child, code[1..], c, rest);
      PrefixedNothing(Prefixed([c], Walk(root, root, rest)));
    }
  }

  /** `huffman_decoding`. */
  method HuffmanDecoding(data: string, tree: Tree) returns (r: Result<string, DecodeError>)
    ensures r == Decoding(tree, data)
  {
    if tree.EmptyTree? {
      if |data| == 0 {
        return Ok("");
      } else if data[0] == '0' || data[0] == '1' {
        return Err(MissingChild);
      } else {
        return Err(MissingValue);
      }
    }
    var root := tree.root;
    var curr := root;
    var decoded := "";
    assert data[0..] == data;
    PrefixedNothing(Walk(root, root, data));
    for i := 0 to |data|
      invariant Walk(root, root, data) == Prefixed(decoded, Walk(root, curr, data[i..]))
    {
      assert data[i..][0] == data[i] && data[i..][1..] == data[i + 1..];
      var item := data[i];
      var next := curr;
      if item == '0' {
        if curr.Leaf? {
          return Err(MissingChild);
        }
        next := curr.left;
      } else if item == '1' {
        if curr.Leaf? {
          return Err(MissingChild);
        }
        next := curr.right;
      }
      if next.Leaf? {
        assert Step(root, curr, item) == Ok((root, [next.symbol]));
        PrefixedPrefixed(decoded, [next.symbol], Walk(root, root, data[i + 1..]));
        decoded := decoded + [next.symbol];
        curr := root;
      } else {
        assert Step(root, curr, item) == Ok((next, []));
        PrefixedNothing(Walk(root, next, data[i + 1..]));
        curr := next;
      }
    }
    assert data[|data|..] == [] && decoded + [] == decoded;
    return Ok(decoded);
  }
}
