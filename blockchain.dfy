/** The hash-linked block list of problem_5.py. Each block remembers the
    hash of the block before it; `append` walks to the last block, checking
    every link on the way, and hangs a new block after it. The SHA-256 hash
    and the clock are not modelled: the hash is a function the chain is
    given, and the time a block is made is a parameter. */
module Chain {
  import opened Wrappers

  /** The clock reading a block is stamped with. */
  type Timestamp = nat

  /** `calc_hash`: the hash of a block made at a time, with its data and
      its predecessor's hash. */
  type Hasher = (Timestamp, string, string) -> string

  /** The `previous_hash` of the first block of a chain. */
  const GenesisHash: string := "0"

  /** The `ValueError` that `append` raises on a broken link. */
  datatype ChainError = InvalidBlock

  /** `Block`: every field but `next` is fixed when the block is made, the
      hash included, which is computed once and never again. */
  class Block {
    const timestamp: Timestamp
    const data: string
    const previousHash: string
    const hash: string
    var next: Block?

    constructor (data: string, previousHash: string, now: Timestamp, calcHash: Hasher)
      ensures this.data == data && this.previousHash == previousHash && timestamp == now
      ensures hash == calcHash(now, data, previousHash)
      ensures next == null
    {
      this.timestamp := now;
      this.data := data;
      this.previousHash := previousHash;
      this.hash := calcHash(now, data, previousHash);
      this.next := null;
    }
  }

  /** `validate_block`: the block names `hash` as its predecessor's hash. */
  predicate ValidateBlock(block: Block, hash: string) {
    block.previousHash == hash
  }

  /** Every block after the first names its predecessor's hash. */
  predicate Linked(blocks: seq<Block>) {
    forall i :: 0 < i < |blocks| ==> blocks[i].previousHash == blocks[i - 1].hash
  }

  /** The data of the blocks, in chain order. */
  function DataOf(blocks: seq<Block>): (r: seq<string>)
    ensures |r| == |blocks| && forall i :: 0 <= i < |blocks| ==> r[i] == blocks[i].data
  {
    if blocks == [] then [] else DataOf(blocks[..|blocks| - 1]) + [blocks[|blocks| - 1].data]
  }

  /** `Blockchain`: the head of a list of blocks joined by `next`. */
  class Blockchain {
    var head: Block?
    const calcHash: Hasher
    /** The blocks from the head onwards. */
    ghost var blocks: seq<Block>
    ghost var Repr: set<object>

    /** `head` starts a null-terminated list through `next` that visits
        `blocks` in order, each block once. */
    ghost predicate Valid()
      reads this, Repr
    {
      && this in Repr
      && (forall i :: 0 <= i < |blocks| ==> blocks[i] in Repr)
      && Distinct(blocks)
      && (if blocks == [] then head == null else head == blocks[0])
      && (forall i :: 0 <= i < |blocks| - 1 ==> blocks[i].next == blocks[i + 1])
      && (blocks != [] ==> blocks[|blocks| - 1].next == null)
    }

    constructor (calcHash: Hasher)
      ensures Valid() && fresh(Repr)
      ensures blocks == [] && this.calcHash == calcHash
    {
      head := null;
      this.calcHash := calcHash;
      blocks := [];
      Repr := {this};
    }

    /** `append`: on an empty chain the new block becomes the head, with
        `previous_hash` "0"; otherwise every link is checked on the way to
        the last block, and the new block goes after it with the last
        block's hash. A broken link fails the call and changes nothing. */
    method Append(data: string, now: Timestamp) returns (r: Result<(), ChainError>)
      requires Valid()
      modifies Repr
      ensures Valid() && fresh(Repr - old(Repr))
      ensures r.Err? <==> !Linked(old(blocks))
      ensures r.Err? ==> blocks == old(blocks)
      ensures r.Ok? ==> Linked(blocks)
      ensures r.Ok? ==>
        var n := |old(blocks)|;
        && |blocks| == n + 1 && blocks[..n] == old(blocks) && fresh(blocks[n])
        && blocks[n].data == data && blocks[n].timestamp == now
        && blocks[n].previousHash == (if n == 0 then GenesisHash else old(blocks)[n - 1].hash)
        && blocks[n].hash == calcHash(now, data, blocks[n].previousHash)
    {
      if head == null {
        head := new Block(data, GenesisHash, now, calcHash);
        blocks := [head];
        Repr := Repr + {head};
        return Ok(());
      }
      var block := head;
      ghost var i := 0;
      while block.next != null
        modifies {}
        invariant 0 <= i < |blocks| && block == blocks[i]
        invariant Linked(blocks[..i + 1])
        invariant i < |blocks| - 1 ==> block.next == blocks[i + 1]
        decreases |blocks| - i
      {
        var previousHash := block.hash;
        block := block.next;
        i := i + 1;
        if !ValidateBlock(block, previousHash) {
          return Err(InvalidBlock);
        }
      }
      assert blocks[..i + 1] == blocks;
      var b := new Block(data, block.hash, now, calcHash);
      block.next := b;
      blocks := blocks + [b];
      Repr := Repr + {b};
      return Ok(());
    }

    /** The walk of the chain's test: the data of each block from the head
        to the end. */
    method Data() returns (ds: seq<string>)
      requires Valid()
      ensures ds == DataOf(blocks)
    {
      ds := [];
      var block := head;
      ghost var i := 0;
      while block != null
        invariant 0 <= i <= |blocks|
        invariant block == if i < |blocks| then blocks[i] else null
        invariant ds == DataOf(blocks[..i])
        decreases |blocks| - i
      {
        assert blocks[..i + 1][..i] == blocks[..i];
        ds := ds + [block.data];
        block := block.next;
        i := i + 1;
      }
      assert blocks[..i] == blocks;
    }
  }

  /** The chain's test: appending each entry in turn to a new chain never
      fails, links every block to the one before, starts from "0", and keeps
      the data in append order. `clock` gives the time of each append. */
  method BuildChain(dataList: seq<string>, clock: seq<Timestamp>, calcHash: Hasher) returns (chain: Blockchain)
    requires |clock| == |dataList|
    ensures chain.Valid() && Linked(chain.blocks)
    ensures DataOf(chain.blocks) == dataList
    ensures dataList != [] ==> chain.blocks[0].previousHash == GenesisHash
  {
    chain := new Blockchain(calcHash);
    for k := 0 to |dataList|
      invariant chain.Valid() && fresh(chain.Repr) && Linked(chain.blocks)
      invariant DataOf(chain.blocks) == dataList[..k]
      invariant k > 0 ==> chain.blocks[0].previousHash == GenesisHash
    {
      var r := chain.Append(dataList[k], clock[k]);
      assert chain.blocks[..k] + [chain.blocks[k]] == chain.blocks;
      assert dataList[..k + 1] == dataList[..k] + [dataList[k]];
    }
    assert dataList[..|dataList|] == dataList;
  }
}
