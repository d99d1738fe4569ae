# Algorithm exercises, modelled and proved in Dafny

This project models five of the six self-contained exercises of the
repository and proves what each one promises:

- **problem_1.py: a bounded least-recently-used cache.** A dictionary from
  keys to nodes sits beside a doubly linked usage list. The list runs from
  the most recently used node (head) to the least recently used one (tail).
  - Modules `LruList` (the list) and `LruCache` (the cache class) are
    imperative: classes whose methods relink nodes in place. Module
    `LruIndex` holds only the predicates and lemmas that tie the heap
    objects to the abstract cache.
  - `LRUCache`'s helpers `RecordHit`, `NewNode`, `AddEntry`, `PushFront`,
    `DropEntry` and `Unlink` are the single steps of `Get` and `Set`, split
    out so that each one's frame reasoning stays small.
  - Every cache method is proved against the abstract cache of module
    `LruSpec`. That cache holds the capacity, the keys in recency order and
    the dictionary. The invariants, eviction order and recency promotion are
    proved as lemmas about it.
- **problem_3.py: Huffman coding.**
  - Module `HuffmanBuild` covers the frequency count, the stable sort by
    descending count, and the loop that merges the two last nodes and
    re-inserts the result.
  - Module `HuffmanTree` covers the code table read off the tree
    (`traverse`) and `huffman_decoding`.
  - Module `HuffmanCodec` covers `huffman_encoding` end to end.
  - Each `for` or `while` loop of the source is a method proved equal to a
    function. The comprehension that makes the leaves and the call to
    `sorted` are the functions `LeafList` and `SortByCount`.
  - The round trip `huffman_decoding(*huffman_encoding(s)) == s` is proved
    for every string. So is the fact that no code is a prefix of another.
- **problem_4.py: group membership.** Module `Groups` models a group as a
  value holding its name, its subgroups and its users. `is_user_in_group`
  is proved to find exactly the users of the group and of every group below
  it, and no one above it or beside it.
- **problem_5.py: a hash-linked chain of blocks.** Module `Chain` models
  `append` as a method that walks the list of blocks and checks each link.
  It fails, and changes nothing, exactly when some block does not name its
  predecessor's hash. Otherwise it adds one block at the end.
- **problem_6.py: set operations on singly linked lists.** Module
  `LinkedSets` models `append`, `size` and `list_to_set` as loops over the
  list, and `set_to_list` as a loop over the set's elements that appends
  each one to a new list. `union` and `intersection` are proved to hold
  exactly the union and intersection of the values of their inputs, each
  value once. `LinkedSets.Elements`, the set of a sequence's values, is the
  reference definition that `ListToSet`, `SetToList`, `Union` and
  `Intersection` are stated against.

Module `Wrappers` holds the `Result` and `Option` types and the `Distinct`
predicate.

The model follows the code in these respects:

- `get` returns -1 on a miss, not a separate "absent" result.
- `set` on a key that is already cached is not treated as an update. Below
  capacity it adds a second node for the key, which `LruSpec.SetPresentBelowCapacityBreaksInv`
  exhibits. The cache's `Set` is therefore specified only for the calls the
  source handles consistently (`LruSpec.CanSet`).
- In the Huffman code, the code of the single character of a one-symbol
  input is "1", not the "0" the comment at problem_3.py:132-133 suggests.
  The lone leaf hangs under both children of the wrapping root, and
  `traverse` writes its right-hand path last. The `string == ""` branch is
  never taken. `HuffmanCodec.SingleSymbol` proves this, and decoding still
  returns the input.

## Model

| member | source | states |
|---|---|---|
| LruSpec.Init | problem_1.py:77-86 | a requested capacity below 1 becomes 1, any other is kept; the cache starts empty and satisfies the invariant |
| LruSpec.Get | problem_1.py:98-107 | the abstract `get`: a hit returns the stored value and moves the key to the front of the recency order; a miss returns -1 and leaves the cache as it was |
| LruSpec.Insert | problem_1.py:119-132 | the insertion that ends both branches of `set`: the key goes to the front of the recency order and into the dictionary with its value, without the list being searched for it |
| LruSpec.Evict | problem_1.py:123-128 | the abstract eviction: the last key of the recency order leaves the order and the dictionary |
| LruSpec.Set | problem_1.py:109-132 | the abstract `set`: below capacity an insertion, at capacity an eviction followed by an insertion |
| LruSpec.GetKeepsInv | problem_1.py:98-107 | a hit returns the stored value, moves the key to the front, keeps every other key's relative order and the dictionary; a miss returns -1 and changes nothing; the invariant is kept |
| LruSpec.InsertKeepsInv | problem_1.py:119-121 | a fresh key below capacity joins the dictionary and the front of the list; the size grows by exactly one |
| LruSpec.EvictKeepsInv | problem_1.py:122-128 | eviction drops exactly the tail key from both the list and the dictionary; the size drops by one |
| LruSpec.SetAfterEvict | problem_1.py:122-132 | at capacity, a call the source handles consistently inserts a key that the eviction has just made absent, below capacity |
| LruSpec.SetKeepsInv | problem_1.py:109-132 | a consistent `set` keeps the invariant and the capacity, and leaves the key at the front with its new value |
| LruSpec.SetEvictsTail | problem_1.py:122-132 | at capacity exactly the least recently used key leaves, the new key enters in front, the size stays at the capacity |
| LruSpec.SetPresentBelowCapacityBreaksInv | problem_1.py:119-121 | re-setting a cached key below capacity breaks the agreement between list and dictionary |
| LruSpec.ApplyKeepsInv | problem_1.py:88-132 | any allowed request keeps the invariant and the capacity |
| LruSpec.RunKeepsInv | problem_1.py:109-132 | over any admissible sequence of `get`/`set` requests the dictionary never exceeds the capacity and its keys are exactly the list's keys |
| LruSpec.ReadKeyOutlivesEviction | problem_1.py:98-132 | a key just read survives the next eviction of a full cache holding at least two keys |
| LruSpec.WithoutAt | problem_1.py:56-69 | removing a node that occurs once drops exactly its position and keeps the others in order |
| LruList.Node.constructor | problem_1.py:4-8 | a node holds its key and value and has no links |
| LruList.DoublyLinkedList.constructor | problem_1.py:32-34 | the list starts empty |
| LruList.DoublyLinkedList.Prepend | problem_1.py:36-48 | the node becomes the new head, and also the tail of an empty list; the rest keep their order |
| LruList.DoublyLinkedList.Remove | problem_1.py:50-69 | the node leaves the list, the others keep their order; head and tail become empty when it was the only node; the new head and tail are those `RemoveEnds` picks from the node's links, so the method takes the branch the source takes |
| LruList.DoublyLinkedList.RemoveIsSafe | problem_1.py:56-69 | on a valid list, the branch `remove` takes always has the neighbours it writes through |
| LruList.DoublyLinkedList.UnlinkTail | problem_1.py:61-63 | removing the tail makes its predecessor the tail |
| LruList.DoublyLinkedList.UnlinkHead | problem_1.py:64-66 | removing the head makes its successor the head |
| LruList.DoublyLinkedList.Bypass | problem_1.py:67-69 | an interior node is spliced out by linking its neighbours |
| LruList.RemoveEnds | problem_1.py:56-66 | the `head` and `tail` that `remove` leaves, as written: both emptied when the node has neither link, the predecessor as tail when the node is the tail, the successor as head when it is the head |
| LruList.SoleRemoveEmpties | problem_1.py:56-60 | removing a sole node with no predecessor empties the list |
| LruList.RemoveRaises | problem_1.py:58-69 | `remove` writes through a missing neighbour: the tail branch with no predecessor, the head branch with no successor, or the interior branch missing either |
| LruList.PrependLinks | problem_1.py:42-48 | `prepend` as written: on an empty list the node becomes head and tail and keeps its own links; otherwise it goes in front of the head; its `prev` is never set |
| LruList.StaleNextRemove | problem_1.py:42-63 | a node with a stale `next` prepended to an empty list becomes head and tail with that `next`; removing it takes the tail branch with no predecessor to write through |
| LruList.StaleSoleRemove | problem_1.py:56-63 | removing a sole node that carries a stale `prev` takes the tail branch: the stale predecessor becomes the tail and `head` stays on the removed node |
| LruIndex.GetStep | problem_1.py:98-105 | on a hit, the dictionary's node holds the value `get` returns, and moving it to the front represents the abstract `get` |
| LruIndex.InsertStep | problem_1.py:119-121 | a new node in the dictionary and at the head represents the abstract insertion |
| LruIndex.EvictStep | problem_1.py:123-128 | dropping the tail node and its key represents the abstract eviction |
| LruCache.LRUCache.constructor | problem_1.py:77-86 | the cache's abstract state is `LruSpec.Init` of the requested capacity |
| LruCache.LRUCache.Get | problem_1.py:88-107 | the returned value and new state are those of `LruSpec.Get`; the dictionary is unchanged |
| LruCache.LRUCache.Set | problem_1.py:109-132 | the new state is that of `LruSpec.Set`, for the calls `LruSpec.CanSet` admits |
| LruCache.LRUCache.MoveToFront | problem_1.py:102-103 | the node is removed and prepended: it moves to the front, the rest keep their order |
| LruCache.LRUCache.InsertNew | problem_1.py:130-132 | a new node for the key goes into the dictionary and to the head, as `LruSpec.Insert` |
| LruCache.LRUCache.EvictOldest | problem_1.py:123-128 | the tail node's key leaves the dictionary and the node leaves the list, as `LruSpec.Evict` |
| HuffmanBuild.Tally | problem_3.py:66-71 | the dictionary from each character of the input to its number of occurrences |
| HuffmanBuild.FirstOccurrences | problem_3.py:66-71 | the dictionary's keys in insertion order: each character of the input once, and no other |
| HuffmanBuild.CountFrequencies | problem_3.py:66-71 | the counting loop yields the characters in first-occurrence order and each one's number of occurrences |
| HuffmanBuild.LeafList | problem_3.py:74 | one leaf per key, all of them leaves |
| HuffmanBuild.LeafListSymbols | problem_3.py:74 | the leaves hold exactly the keys |
| HuffmanBuild.TallySum | problem_3.py:66-74 | the leaves' counts add up to the length of the input |
| HuffmanBuild.InsertByCount | problem_3.py:75 | inserting into the sorted list keeps the same elements |
| HuffmanBuild.SortByCount | problem_3.py:75 | `sorted` by descending count keeps the same elements |
| HuffmanBuild.SortByCountDescending | problem_3.py:75 | the sorted list is in descending order of count |
| HuffmanBuild.SortKeepsSymbols | problem_3.py:75 | sorting keeps the multiset of characters |
| HuffmanBuild.SortKeepsWeight | problem_3.py:75 | sorting keeps the total count |
| HuffmanBuild.FirstWithWeight | problem_3.py:90-95 | the first position whose count equals the new node's, or the end of the list |
| HuffmanBuild.FindSlot | problem_3.py:90-95 | the search loop returns that position |
| HuffmanBuild.Join | problem_3.py:85-88 | the new inner node: the concatenated characters and the summed counts of the two popped nodes, with them as left and right child |
| HuffmanBuild.Merge | problem_3.py:83-100 | one pass shortens the work list by one |
| HuffmanBuild.MergePlacement | problem_3.py:83-100 | one pass puts the join of the last node and the one before it at a position before which the list is unchanged and no node has the joined count, and after which come the remaining nodes in order; the node right after the join, if any, has the joined count |
| HuffmanBuild.MergeKeepsSymbols | problem_3.py:83-100 | one pass keeps the multiset of characters below the work list |
| HuffmanBuild.MergeKeepsWeight | problem_3.py:83-100 | one pass keeps the total count |
| HuffmanBuild.MergeKeepsWellBuilt | problem_3.py:85-88 | every inner node holds its children's characters and the sum of their counts |
| HuffmanBuild.MergePass | problem_3.py:83-100 | the pops, the new node and the insert or append compute exactly `Merge` |
| HuffmanBuild.Build | problem_3.py:82-102 | the node left when merge passes are repeated until one node remains |
| HuffmanBuild.BuildTree | problem_3.py:82-102 | the loop ends with the node `Build` describes |
| HuffmanBuild.BuildKeepsTotals | problem_3.py:82-102 | the final node holds every character of the work list once per leaf, with the total count |
| HuffmanBuild.BuildWellBuilt | problem_3.py:82-102 | the final node is well built when the work list is |
| HuffmanBuild.Wrap | problem_3.py:104-108 | a lone leaf is wrapped into an inner node; the root has children and the same characters |
| HuffmanTree.Traverse | problem_3.py:113-140 | the table gains exactly the characters of the leaves below the node |
| HuffmanTree.TraverseCodes | problem_3.py:129-140 | each entry written for a leaf is the path so far followed by a path to that leaf; other entries are untouched |
| HuffmanTree.RootCodes | problem_3.py:142 | from the root, every leaf character has a code leading to a leaf holding it |
| HuffmanTree.ReachesPrefix | problem_3.py:130-140 | two codes leading to leaves, one a prefix of the other, are the same code for the same character |
| HuffmanTree.PrefixFree | problem_3.py:113-142 | no character's code is a prefix of another's |
| HuffmanTree.FollowBits | problem_3.py:139-140 | a path that can be followed spells only '0' and '1' |
| HuffmanTree.CodesAreBits | problem_3.py:113-142 | every code spells only '0' and '1' |
| HuffmanTree.Step | problem_3.py:171-179 | one bit of decoding: '0' goes left, '1' right, any other character stays; reaching a leaf emits its character and returns to the root; a missing child or value is an error |
| HuffmanTree.Decoding | problem_3.py:152-181 | the decoded string: the steps of every bit from the root, in order, with the characters they emit concatenated |
| HuffmanTree.Walk | problem_3.py:170-179 | each bit emits at most one character |
| HuffmanTree.WalkCode | problem_3.py:170-179 | following a character's code from the root emits exactly that character and returns to the root |
| HuffmanTree.HuffmanDecoding | problem_3.py:152-181 | the loop computes `Decoding`, including the failures on the tree of an empty input |
| HuffmanCodec.Leaves | problem_3.py:66-74 | a non-empty input gives at least one leaf |
| HuffmanCodec.Built | problem_3.py:82-102 | the node the building loop leaves for a non-empty input: the leaves of the counts, sorted by descending count, merged until one remains |
| HuffmanCodec.HuffmanRoot | problem_3.py:102-108 | the root of the returned tree: the built node, wrapped when it is a lone leaf |
| HuffmanCodec.CodeTable | problem_3.py:111-142 | the dictionary `traverse(root, "", {})` fills from the root |
| HuffmanCodec.BuiltLeaves | problem_3.py:82-108 | each distinct character of the input sits in exactly one leaf of the built tree, and no other character appears |
| HuffmanCodec.BuiltWeight | problem_3.py:82-102 | the built tree is well built and its root's count is the length of the input |
| HuffmanCodec.CodeTableCovers | problem_3.py:142 | the table's keys are exactly the input's characters, and each code leads to its character |
| HuffmanCodec.Encoded | problem_3.py:145-147 | the codes of the input's characters, concatenated in input order |
| HuffmanCodec.EncodedSnoc | problem_3.py:146-147 | encoding one more character appends its code |
| HuffmanCodec.EncodeData | problem_3.py:145-147 | the loop concatenates the codes of the input's characters in order |
| HuffmanCodec.WalkEncoded | problem_3.py:170-179 | decoding the concatenated codes from the root gives the characters back |
| HuffmanCodec.RoundTrip | problem_3.py:188-198 | decoding the encoding of any string, the empty one included, gives the string back |
| HuffmanCodec.EncodingIsBits | problem_3.py:145-149 | the encoded string holds only '0' and '1' |
| HuffmanCodec.CodesPrefixFree | problem_3.py:113-147 | every input character has a code, and no code is a prefix of another's |
| HuffmanCodec.SingleSymbolRoot | problem_3.py:104-108 | with one distinct character, the root is a wrapper whose two children are the same leaf |
| HuffmanCodec.SingleSymbol | problem_3.py:130-140 | with one distinct character, its code is "1" and the encoding is one '1' per input character |
| HuffmanCodec.Encoding | problem_3.py:51-149 | the encoded string and the tree: an empty string and an empty tree for an empty input, otherwise the codes of the input's characters concatenated, read off the tree built from the input's counts |
| HuffmanCodec.HuffmanEncoding | problem_3.py:51-149 | the result is `Encoding` of the input, and decoding it gives the input back |
| Groups.NewGroup | problem_4.py:2-5 | a new group: the given name, no subgroups and no users |
| Groups.AddGroup | problem_4.py:7-8 | the subgroup is appended; the users and the name are unchanged |
| Groups.AddUser | problem_4.py:10-11 | the user is appended; the subgroups and the name are unchanged |
| Groups.IsUserInGroup | problem_4.py:23-41 | the search: the user is one of the group's own users, or some subgroup's search finds the user |
| Groups.FoundHasPath | problem_4.py:23-41 | a user the search finds is a user of the group or of a group below it |
| Groups.PathIsFound | problem_4.py:23-41 | a user of the group or of any group below it is found by the search |
| Groups.Membership | problem_4.py:23-41 | the search finds exactly the users of the group and of the groups below it |
| Groups.NewGroupIsEmpty | problem_4.py:1-5 | a new group contains no user |
| Groups.AddUserMembership | problem_4.py:10-11 | after `add_user` the group contains the new user and those it contained before, and nobody else |
| Groups.AddGroupMembership | problem_4.py:7-8 | after `add_group` the group contains its former users and those of the added subgroup, and nobody else |
| Groups.ParentContainsChild | problem_4.py:36-40 | whoever a subgroup contains, its parent contains too |
| Groups.BigFamilyChildren | problem_4.py:108-116 | in the big test, each child holds its own users and none of its sibling's |
| Groups.BigFamilyElders | problem_4.py:98-121 | in the big test, the parent and grandparent hold exactly the four users |
| Chain.Block.constructor | problem_5.py:7-13 | a block keeps its data, predecessor's hash and time, its hash is computed once from those three, and it has no successor |
| Chain.DataOf | problem_5.py:126-131 | the data of the blocks in chain order |
| Chain.Blockchain.constructor | problem_5.py:59-60 | a new chain has no blocks |
| Chain.Blockchain.Append | problem_5.py:62-101 | checks each link with `validate_block` on the walk to the last block; fails, changing nothing, exactly when some block does not name its predecessor's hash; otherwise adds one new block at the end with the data, the time, the predecessor's hash ("0" for the head) and the hash of those; earlier blocks are untouched and the links stay intact |
| Chain.Blockchain.Data | problem_5.py:126-131 | walking from the head yields the data of the blocks in order |
| Chain.BuildChain | problem_5.py:119-131 | appending each entry to a new chain never fails, links every block, starts from "0" and keeps the data in append order |
| LinkedSets.Node.constructor | problem_6.py:2-4 | a node holds its value and has no successor |
| LinkedSets.DistinctCard | problem_6.py:69-74 | a list without repeats has as many values as distinct values |
| LinkedSets.LinkedList.constructor | problem_6.py:11-12 | a new list is empty |
| LinkedSets.LinkedList.Append | problem_6.py:23-33 | the value is added at the end and earlier values are unchanged |
| LinkedSets.LinkedList.Size | problem_6.py:35-42 | the number of nodes reached from the head |
| LinkedSets.ListToSet | problem_6.py:44-58 | exactly the set of values stored in the list |
| LinkedSets.SetToList | problem_6.py:60-74 | a new list holding each element of the set once, so its size is the set's cardinality |
| LinkedSets.Union | problem_6.py:77-92 | a new list holding, once each, exactly the values in either input |
| LinkedSets.Intersection | problem_6.py:94-109 | a new list holding, once each, exactly the values in both inputs |

## Left out

- problem_2.py: the recursive file search only calls the file system (`os.path.exists`, `isfile`, `listdir`, `join`). It has no logic of its own to model.
- The SHA-256 hash and the clock of problem_5.py are foreign library calls and wall-clock input. The hash is a function the chain is given (`Chain.Hasher`). The block's time is a parameter of `append`, and the formatting of the time is part of that function.
- The warning issued for a capacity below 1 (problem_1.py:81) is I/O. Only the coercion to 1 is modelled.
- The printing, `sys.getsizeof` and other reporting in the test functions are not modelled. Only the tests' assertions are.
- `LinkedList.__str__` and `Node.__repr__` of problem_6.py are display only.
- LruCache.LRUCache.Set: specified only for a key not yet cached, or for the tail key of a full cache (`LruSpec.CanSet`). For any other cached key, the source adds a second node for the key. The list and the dictionary then disagree, as `LruSpec.SetPresentBelowCapacityBreaksInv` shows, and no invariant survives.
- LruList.DoublyLinkedList.Remove: ensures only that the links are intact, not that a sole remaining node has no predecessor. When the tail of a two-node list is removed, the new sole node may keep a stale `prev`: only a node that `get` moved to the front carries one. The cache always prepends right after removing, which repairs it. On a list used on its own, removing such a sole node takes the tail branch: it clears the stale predecessor's `next` and makes it the tail, while `head` still points at the removed node (see Findings).
- LruList.DoublyLinkedList.Prepend: requires a node added to an empty list to have no links, which the source does not check. A node removed earlier as a head keeps its stale `next`; on a list used on its own, prepending it to an empty list and then removing it takes the tail branch with no predecessor and raises (see Findings). The cache only prepends fresh nodes or nodes it has just removed, and a node whose removal emptied the list has no links, so the cache always meets the requirement.
- Cache values are `int`, while the source stores any value. A stored -1 cannot be told apart from a miss, exactly as in the source.
- The key and value setters of problem_1.py's `Node` are never called, so the model's key and value are fixed.
- Groups: the model is a value, while the source appends to the lists of shared group objects in place. A subgroup changed after it was added to a parent is therefore not seen through the parent. The big test's hierarchy is built bottom-up instead (`Groups.BigFamily`). The getters `get_name`, `get_groups` and `get_users` are the datatype's fields.
- Groups: cyclic hierarchies are left out. The source's search does not terminate on them, and a value cannot hold a cycle.
- Chain.Blockchain.Append: the model offers no operation that can break a link. The source's `next` setter lets outside code do so. Append's contract covers every list of blocks, whatever its links.
- LinkedSets: the lists hold integers, as in the tests. `set_to_list` takes the set's elements in an unspecified order, as Python's set iteration does. The results are stated over sets of values.
- HuffmanTree.Traverse: the source also overwrites each leaf's (character, count) pair with the character alone (problem_3.py:131). The model's leaves keep both. The character is what the table and decoding use.
- HuffmanBuild.SortByCount: the stability of Python's `sorted` is built into its definition as a stable insertion sort. It is stated, not derived.
- Huffman: optimality of the code lengths is not claimed. The source does not promise it.
- HuffmanTree.Decoding: on the tree of an empty input, decoding a non-empty string raises in the source. The model returns an error instead: `MissingChild` when a '0' or '1' steps to a missing child, and `MissingValue` when another character appends the root's missing value.

## Findings

| source | as written | input that shows it | evidently intended | confidence | as-written member | corrected member |
|---|---|---|---|---|---|---|
| problem_1.py:56-63 | `remove` tells the sole node apart only by both of its links being `None`, but a node moved to the front keeps a stale `prev` | on a list used on its own: `prepend(a)`, `prepend(b)`, `remove(a)`, `prepend(a)`, `remove(b)`, `remove(a)`; the last call takes the tail branch, so `head` stays on `a` and `tail` becomes `b` | removing the only node empties the list | not executed | LruList.StaleSoleRemove | LruList.DoublyLinkedList.Remove |
| problem_1.py:42-63 | `prepend` onto an empty list leaves the node's own links as they were, and `remove` tells the sole node apart only by both links being `None` | on a list used on its own: `prepend(a)`, `prepend(b)`, `remove(b)`, `remove(a)`, `prepend(b)`, `remove(b)`; `b` keeps `next == a`, so the last call takes the tail branch and writes through a `None` predecessor | removing the only node empties the list | not executed | LruList.StaleNextRemove | LruList.DoublyLinkedList.Prepend |

`LruList.RemoveEnds` models the branch choice as written. `LruList.DoublyLinkedList.Remove` requires `Valid()`, under which a sole node has no `prev`, and then ensures the list is empty after its only node is removed (`LruList.SoleRemoveEmpties` shows the branch taken). The cache's own calls always meet that requirement.

`LruList.PrependLinks` and `LruList.RemoveRaises` model `prepend` and the writes of `remove` as written. `LruList.DoublyLinkedList.Prepend` requires a node added to an empty list to have no links, and `LruList.DoublyLinkedList.RemoveIsSafe` shows that `remove` never writes through a missing neighbour on a list kept valid that way.
