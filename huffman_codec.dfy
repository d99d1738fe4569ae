/** `huffman_encoding` of problem_3.py end to end, and the round trip with
    `huffman_decoding` that the file's tests assert. */
module HuffmanCodec {
  import opened Wrappers
  import opened HuffmanTree
  import opened HuffmanBuild

  /** The work list before sorting: one leaf per distinct character of
      `data`, in order of first occurrence, weighted by its count. */
  function Leaves(data: string): (r: seq<Node>)
    ensures |data| > 0 ==> |r| >= 1
  {
    assert |data| > 0 ==> data[0] in FirstOccurrences(data);
    LeafList(FirstOccurrences(data), Tally(data))
  }

  /** The node the building loop ends with. */
  function Built(data: string): Node
    requires |data| > 0
  {
    Build(SortByCount(Leaves(data)))
  }

  /** The root of the tree `huffman_encoding` returns for non-empty data. */
  function HuffmanRoot(data: string): Node
    requires |data| > 0
  {
    Wrap(Built(data))
  }

  /** The dictionary `traverse` fills. */
  function CodeTable(data: string): map<char, string>
    requires |data| > 0
  {
    Traverse(HuffmanRoot(data), "", map[])
  }

  /** Each distinct character of the input sits in exactly one leaf of the
      built tree, and no other character does. */
  lemma BuiltLeaves(data: string)
    requires |data| > 0
    ensures multiset(LeafSymbols(Built(data))) == multiset(FirstOccurrences(data))
    ensures forall c :: c in LeafSymbols(HuffmanRoot(data)) <==> c in data
  {
    var keys := FirstOccurrences(data);
    var leaves := Leaves(data);
    BuildKeepsTotals(SortByCount(leaves));
    SortKeepsSymbols(leaves);
    LeafListSymbols(keys, Tally(data));
    assert forall c :: c in LeafSymbols(Built(data)) <==> c in multiset(keys);
  }

  /** The counts of the built tree: every inner node holds the sum of its
      children's counts, and the root holds the length of the input. */
  lemma BuiltWeight(data: string)
    requires |data| > 0
    ensures WellBuilt(Built(data))
    ensures Built(data).weight == |data|
  {
    var leaves := Leaves(data);
    TallySum(data);
    SortKeepsWeight(leaves);
    BuildKeepsTotals(SortByCount(leaves));
    forall n | n in SortByCount(leaves)
      ensures WellBuilt(n)
    {
      assert n in multiset(SortByCount(leaves));
    }
    BuildWellBuilt(SortByCount(leaves));
  }

  /** Every character of the input has a code, and its code leads from the
      root to a leaf holding it. */
  lemma CodeTableCovers(data: string)
    requires |data| > 0
    ensures forall c :: c in CodeTable(data) <==> c in data
    ensures forall c :: c in data ==> Reaches(HuffmanRoot(data), CodeTable(data)[c], c)
  {
    BuiltLeaves(data);
    RootCodes(HuffmanRoot(data));
  }

  /** The codes of `data`'s characters, concatenated in input order. */
  function Encoded(table: map<char, string>, data: string): string
    requires forall c :: c in data ==> c in table
  {
    if data == [] then [] else table[data[0]] + Encoded(table, data[1..])
  }

  lemma {:induction false} EncodedSnoc(table: map<char, string>, data: string, c: char)
    requires forall d :: d in data ==> d in table
    requires c in table
    ensures Encoded(table, data + [c]) == Encoded(table, data) + table[c]
  {
    if data == [] {
      assert [c][1..] == [];
    } else {
      assert (data + [c])[1..] == data[1..] + [c];
      EncodedSnoc(table, data[1..], c);
    }
  }

  /** The encoding loop: each character's code appended in turn. */
  method EncodeData(table: map<char, string>, data: string) returns (encoded: string)
    requires forall c :: c in data ==> c in table
    ensures encoded == Encoded(table, data)
  {
    encoded := "";
    for i := 0 to |data|
      invariant encoded == Encoded(table, data[..i])
    {
      assert data[..i + 1] == data[..i] + [data[i]];
      EncodedSnoc(table, data[..i], data[i]);
      encoded := encoded + table[data[i]];
    }
    assert data[..|data|] == data;
  }

  /** What `huffman_encoding` returns: the encoded string and the tree. */
  function Encoding(data: string): (string, Tree) {
    if |data| == 0 then ("", EmptyTree)
    else
      CodeTableCovers(data);
      (Encoded(CodeTable(data), data), Tree(HuffmanRoot(data)))
  }

  /** Decoding the concatenated codes from the root gives the input back. */
  lemma {:induction false} WalkEncoded(root: Node, table: map<char, string>, data: string)
    requires root.Branch?
    requires forall c :: c in data ==> c in table && Reaches(root, table[c], c)
    ensures Walk(root, root, Encoded(table, data)) == Ok(data)
  {
    if data != [] {
      var rest := Encoded(table, data[1..]);
      WalkEncoded(root, table, data[1..]);
      WalkCode(root, root, table[data[0]], data[0], rest);
      assert [data[0]] + data[1..] == data;
    }
  }

  /** `huffman_decoding(*huffman_encoding(data))` gives `data` back, for
      every string, the empty one included. */
  lemma RoundTrip(data: string)
    ensures Decoding(Encoding(data).1, Encoding(data).0) == Ok(data)
  {
    if |data| > 0 {
      CodeTableCovers(data);
      WalkEncoded(HuffmanRoot(data), CodeTable(data), data);
    }
  }

  lemma {:induction false} EncodedBits(table: map<char, string>, data: string)
    requires forall c :: c in data ==> c in table
    requires forall c, i :: c in data && 0 <= i < |table[c]| ==> table[c][i] == '0' || table[c][i] == '1'
    ensures forall i :: 0 <= i < |Encoded(table, data)| ==> Encoded(table, data)[i] == '0' || Encoded(table, data)[i] == '1'
  {
    if data != [] {
      EncodedBits(table, data[1..]);
      var code, rest := table[data[0]], Encoded(table, data[1..]);
      assert forall i :: |code| <= i < |code + rest| ==> (code + rest)[i] == rest[i - |code|];
    }
  }

  /** The encoded string spells only '0' and '1'. */
  lemma EncodingIsBits(data: string)
    ensures forall i :: 0 <= i < |Encoding(data).0| ==> Encoding(data).0[i] == '0' || Encoding(data).0[i] == '1'
  {
    if |data| > 0 {
      CodeTableCovers(data);
      BuiltLeaves(data);
      CodesAreBits(HuffmanRoot(data));
      EncodedBits(CodeTable(data), data);
    }
  }

  /** No character's code is a prefix of another character's code. */
  lemma CodesPrefixFree(data: string)
    requires |data| > 0
    ensures forall c :: c in data ==> c in CodeTable(data)
    ensures forall c, d :: c in data && d in data && c != d ==> !(CodeTable(data)[c] <= CodeTable(data)[d])
  {
    CodeTableCovers(data);
    BuiltLeaves(data);
    PrefixFree(HuffmanRoot(data));
  }

  lemma {:induction false} CountAllSame(s: string, c: char)
    requires forall i :: 0 <= i < |s| ==> s[i] == c
    ensures multiset(s)[c] == |s|
  {
    if s != [] {
      assert s == [s[0]] + s[1..];
      CountAllSame(s[1..], c);
    }
  }

  lemma {:induction false} EncodedAllSame(table: map<char, string>, s: string, c: char)
    requires c in table && table[c] == "1"
    requires forall i :: 0 <= i < |s| ==> s[i] == c
    ensures Encoded(table, s) == seq(|s|, _ => '1')
  {
    if s != [] {
      EncodedAllSame(table, s[1..], c);
    }
  }

  lemma {:induction false} FirstOccurrencesAllSame(s: string, c: char)
    requires |s| > 0 && forall i :: 0 <= i < |s| ==> s[i] == c
    ensures FirstOccurrences(s) == [c]
    decreases |s|
  {
    if |s| > 1 {
      FirstOccurrencesAllSame(s[..|s| - 1], c);
    } else {
      assert s[..0] == [];
    }
  }

  /** With a single distinct character the building loop does not run and
      the lone leaf is wrapped. */
  lemma SingleSymbolRoot(data: string)
    requires |data| > 0 && forall i :: 0 <= i < |data| ==> data[i] == data[0]
    ensures HuffmanRoot(data) == Branch(Leaf(data[0], |data|), Leaf(data[0], |data|), [data[0]], |data|)
  {
    var c, n := data[0], |data|;
    var keys := FirstOccurrences(data);
    FirstOccurrencesAllSame(data, c);
    assert Tally(data) == map[c := n] by {
      CountAllSame(data, c);
    }
    var leaf := Leaf(c, n);
    assert Leaves(data) == [leaf];
    assert SortByCount([leaf]) == [leaf] by {
      assert [leaf][..0] == [];
    }
  }

  /** With a single distinct character, the lone leaf sits under both
      children of the root; `traverse` writes its left path "0" first and
      its right path "1" last, so the code is "1" and the encoded string is
      one '1' per input character. */
  lemma SingleSymbol(data: string)
    requires |data| > 0 && forall i :: 0 <= i < |data| ==> data[i] == data[0]
    ensures CodeTable(data) == map[data[0] := "1"]
    ensures Encoding(data).0 == seq(|data|, _ => '1')
  {
    var c, n := data[0], |data|;
    var leaf := Leaf(c, n);
    SingleSymbolRoot(data);
    assert "" + "0" == "0" && "" + "1" == "1";
    assert CodeTable(data) == Traverse(leaf, "1", Traverse(leaf, "0", map[]));
    assert CodeTable(data) == map[c := "0"][c := "1"];
    assert map[c := "0"][c := "1"] == map[c := "1"];
    EncodedAllSame(CodeTable(data), data, c);
  }

  /** `huffman_encoding`. */
  method HuffmanEncoding(data: string) returns (encoded: string, tree: Tree)
    ensures (encoded, tree) == Encoding(data)
    ensures Decoding(tree, encoded) == Ok(data)
  {
    RoundTrip(data);
    if |data| == 0 {
      return "", EmptyTree;
    }
    var keys, counts := CountFrequencies(data);
    var freqList := LeafList(keys, counts);
    freqList := SortByCount(freqList);
    var root := BuildTree(freqList);
    if root.Leaf? {
      root := Branch(root, root, Symbols(root), root.weight);
    }
    var table := Traverse(root, "", map[]);
    CodeTableCovers(data);
    encoded := EncodeData(table, data);
    tree := Tree(root);
  }
}
