/** Replacing blocks of a file (daemon/file/models/file.cc). */
module FileNode {
  import opened Words

  datatype Block = Block(size: uint32, hash: string)

  /** A shared_ptr: None once its block has been moved out. */
  datatype Ptr = None | Some(block: Block)

  datatype Entry = Entry(index: nat, ptr: Ptr)

  function Sum(blocks: seq<Block>): nat {
    if blocks == [] then 0 else Sum(blocks[..|blocks| - 1]) + blocks[|blocks| - 1].size
  }

  lemma {:induction false} SumConcat(a: seq<Block>, b: seq<Block>)
    ensures Sum(a + b) == Sum(a) + Sum(b)
    decreases |b|
  {
    if b == [] {
      assert a + b == a;
    } else {
      var n := |b| - 1;
      assert (a + b)[..|a| + n] == a + b[..n];
      SumConcat(a, b[..n]);
    }
  }

  lemma SumUpdate(blocks: seq<Block>, i: nat, b: Block)
    requires i < |blocks|
    ensures Sum(blocks[i := b]) + blocks[i].size == Sum(blocks) + b.size
  {
    assert blocks == blocks[..i] + [blocks[i]] + blocks[i + 1..];
    assert blocks[i := b] == blocks[..i] + [b] + blocks[i + 1..];
    SumConcat(blocks[..i] + [blocks[i]], blocks[i + 1..]);
    SumConcat(blocks[..i] + [b], blocks[i + 1..]);
    SumConcat(blocks[..i], [blocks[i]]);
    SumConcat(blocks[..i], [b]);
    assert [blocks[i]][..0] == [] && [b][..0] == [];
  }

  // ----- specifications -----

  /** The writes of batch, first to last. */
  function ReplaceAll(blocks: seq<Block>, batch: seq<Entry>): (r: seq<Block>)
    requires InRange(blocks, batch)
    ensures |r| == |blocks|
    decreases |batch|
  {
    if batch == [] then blocks
    else
      var last := batch[|batch| - 1];
      ReplaceAll(blocks, batch[..|batch| - 1])[last.index := last.ptr.block]
  }

  ghost predicate InRange(blocks: seq<Block>, batch: seq<Entry>) {
    forall k :: 0 <= k < |batch| ==> batch[k].index < |blocks| && batch[k].ptr.Some?
  }

  /** A batch changes only the indices it names... */
  lemma {:induction false} OthersKept(blocks: seq<Block>, batch: seq<Entry>, i: nat)
    requires InRange(blocks, batch) && i < |blocks|
    requires forall k :: 0 <= k < |batch| ==> batch[k].index != i
    ensures ReplaceAll(blocks, batch)[i] == blocks[i]
    decreases |batch|
  {
    if batch != [] {
      var before := batch[..|batch| - 1];
      assert forall k :: 0 <= k < |before| ==> before[k] == batch[k];
      OthersKept(blocks, before, i);
    }
  }

  /** ... and leaves at each of them the last block written there. */
  lemma {:induction false} LastWriteWins(blocks: seq<Block>, batch: seq<Entry>, k: nat)
    requires InRange(blocks, batch) && k < |batch|
    requires forall l :: k < l < |batch| ==> batch[l].index != batch[k].index
    ensures ReplaceAll(blocks, batch)[batch[k].index] == batch[k].ptr.block
    decreases |batch|
  {
    if k < |batch| - 1 {
      var before := batch[..|batch| - 1];
      assert forall l :: 0 <= l < |before| ==> before[l] == batch[l];
      LastWriteWins(blocks, before, k);
    }
  }

  function Blocks(ptrs: seq<Ptr>): (r: seq<Block>)
    requires forall k :: 0 <= k < |ptrs| ==> ptrs[k].Some?
    ensures |r| == |ptrs|
  {
    seq(|ptrs|, k requires 0 <= k < |ptrs| => ptrs[k].block)
  }

  /** Overwrite from index on, growing past the end when needed. */
  function Splice(blocks: seq<Block>, index: nat, added: seq<Block>): seq<Block>
    requires index <= |blocks|
  {
    blocks[..index] + added + (if index + |added| < |blocks| then blocks[index + |added|..] else [])
  }

  /** A splice, block by block. */
  lemma SpliceAt(blocks: seq<Block>, index: nat, ptrs: seq<Ptr>)
    requires index < |blocks| && forall k :: 0 <= k < |ptrs| ==> ptrs[k].Some?
    ensures var r := Splice(blocks, index, Blocks(ptrs));
            && |r| == (if index + |ptrs| < |blocks| then |blocks| else index + |ptrs|)
            && (forall k :: 0 <= k < |ptrs| ==> r[index + k] == ptrs[k].block)
            && (forall i :: 0 <= i < index || index + |ptrs| <= i < |blocks| ==> r[i] == blocks[i])
  {
  }

  /** The batch that writes added from index on. */
  function AsBatch(index: nat, added: seq<Block>): (r: seq<Entry>)
    ensures |r| == |added|
    ensures forall k :: 0 <= k < |r| ==> r[k] == Entry(index + k, Some(added[k]))
  {
    seq(|added|, k requires 0 <= k < |added| => Entry(index + k, Some(added[k])))
  }

  /** Inside the file, a splice is the batch of its single writes. */
  lemma {:induction false} SpliceIsBatch(blocks: seq<Block>, index: nat, added: seq<Block>)
    requires index + |added| <= |blocks|
    ensures Splice(blocks, index, added) == ReplaceAll(blocks, AsBatch(index, added))
    decreases |added|
  {
    if added != [] {
      var n := |added| - 1;
      SpliceIsBatch(blocks, index, added[..n]);
      assert AsBatch(index, added)[..n] == AsBatch(index, added[..n]);
    }
  }

  lemma ReplaceNone(blocks: seq<Block>, batch: seq<Entry>)
    ensures ReplaceAll(blocks, batch[..0]) == blocks
  {
  }

  lemma ReplaceOne(blocks: seq<Block>, batch: seq<Entry>, i: nat)
    requires InRange(blocks, batch) && i < |batch|
    ensures ReplaceAll(blocks, batch[..i + 1]) == ReplaceAll(blocks, batch[..i])[batch[i].index := batch[i].ptr.block]
  {
    assert batch[..i + 1][..i] == batch[..i];
  }

  lemma SpliceNone(blocks: seq<Block>, index: nat, added: seq<Block>)
    requires index <= |blocks|
    ensures Splice(blocks, index, added[..0]) == blocks
  {
  }

  /** One more block overwrites the next one, or is appended past the end. */
  lemma SpliceOne(blocks: seq<Block>, index: nat, added: seq<Block>, j: nat)
    requires index <= |blocks| && j < |added|
    ensures var s := Splice(blocks, index, added[..j]);
            Splice(blocks, index, added[..j + 1])
            == if index + j < |s| then s[index + j := added[j]] else s + [added[j]]
  {
    assert added[..j + 1] == added[..j] + [added[j]];
  }

  // ----- size accounting on a 64-bit word -----

  const WORD: nat := 0x1_0000_0000_0000_0000

  /** The size field moved by as much as the blocks did, modulo 2^64. */
  function SizeAfter(fileSize: uint64, sumBefore: nat, sumAfter: nat): uint64 {
    (fileSize + sumAfter - sumBefore) % WORD
  }

  lemma SizeMoves(fileSize: uint64, before: nat, now: nat)
    ensures SizeAfter(fileSize, before, now) == (fileSize + now - before) % 0x1_0000_0000_0000_0000
    ensures fileSize == before % 0x1_0000_0000_0000_0000 ==>
              SizeAfter(fileSize, before, now) == now % 0x1_0000_0000_0000_0000
  {
  }

  lemma SizeUnchanged(fileSize: uint64, sum: nat)
    ensures SizeAfter(fileSize, sum, sum) == fileSize
  {
  }

  lemma SizeGrowth(fileSize: uint64, before: nat, now: nat, added: uint32)
    ensures (SizeAfter(fileSize, before, now) + added) % WORD == SizeAfter(fileSize, before, now + added)
  {
  }

  lemma SizeExchange(fileSize: uint64, before: nat, now: nat, added: uint32, removed: uint32, next: nat)
    requires next + removed == now + added
    ensures ((SizeAfter(fileSize, before, now) + added) % WORD - removed) % WORD
         == SizeAfter(fileSize, before, next)
  {
    SizeGrowth(fileSize, before, now, added);
  }

  lemma SumPush(blocks: seq<Block>, b: Block)
    ensures Sum(blocks + [b]) == Sum(blocks) + b.size
  {
    assert (blocks + [b])[..|blocks|] == blocks;
  }

  class FileNode {
    var fileSize: uint64
    var blocks: seq<Block>
    var versions: seq<string>

    /** The source leaves the size field uninitialised. */
    constructor (fileSize: uint64)
      ensures this.fileSize == fileSize && blocks == [] && versions == []
    {
      this.fileSize, blocks, versions := fileSize, [], [];
    }

    /** The first loop of replace_block. */
    method CheckIndices(batch: array<Entry>) returns (ok: bool)
      ensures ok <==> forall k :: 0 <= k < batch.Length ==> batch[k].index < |blocks|
    {
      for i := 0 to batch.Length
        invariant forall k :: 0 <= k < i ==> batch[k].index < |blocks|
      {
        if batch[i].index >= |blocks| {
          return false;
        }
      }
      return true;
    }

    /** replace_block, batch form. The pointers are dereferenced only once all indices
        have been checked. */
    method ReplaceBlocks(commitId: string, batch: array<Entry>) returns (ok: bool)
      requires (forall k :: 0 <= k < batch.Length ==> batch[k].index < |blocks|)
           ==> (forall k :: 0 <= k < batch.Length ==> batch[k].ptr.Some?)
      modifies this, batch
      ensures ok <==> forall k :: 0 <= k < batch.Length ==> old(batch[k].index) < |old(blocks)|
      ensures ok ==>
                && blocks == ReplaceAll(old(blocks), old(batch[..]))
                && fileSize == (old(fileSize) + Sum(blocks) - Sum(old(blocks))) % 0x1_0000_0000_0000_0000
                && versions == old(versions) + [commitId]
                && forall k :: 0 <= k < batch.Length ==> batch[k] == Entry(old(batch[k].index), None)
      ensures !ok ==> unchanged(this) && unchanged(batch)
    {
      hide Sum, SizeAfter, ReplaceAll;
      var inRange := CheckIndices(batch);
      if !inRange {
        return false;
      }
      ghost var entries := batch[..];
      ReplaceNone(blocks, entries);
      SizeUnchanged(fileSize, Sum(blocks));
      for i := 0 to batch.Length
        invariant |blocks| == |old(blocks)| && versions == old(versions)
        invariant forall k :: i <= k < batch.Length ==> batch[k] == entries[k]
        invariant forall k :: 0 <= k < i ==> batch[k] == Entry(entries[k].index, None)
        invariant blocks == ReplaceAll(old(blocks), entries[..i])
        invariant fileSize == SizeAfter(old(fileSize), Sum(old(blocks)), Sum(blocks))
      {
        var Entry(index, ptr) := batch[i];
        SumUpdate(blocks, index, ptr.block);
        SizeExchange(old(fileSize), Sum(old(blocks)), Sum(blocks), ptr.block.size, blocks[index].size,
                     Sum(blocks[index := ptr.block]));
        ReplaceOne(old(blocks), entries, i);
        fileSize := (fileSize + ptr.block.size) % WORD;
        fileSize := (fileSize - blocks[index].size) % WORD;
        blocks := blocks[index := ptr.block];
        batch[i] := Entry(index, None);
      }
      assert entries[..batch.Length] == entries;
      SizeMoves(old(fileSize), Sum(old(blocks)), Sum(blocks));
      versions := versions + [commitId];
      return true;
    }

    /** add_and_replace_block: refused when index is not inside the file. */
    method AddAndReplaceBlock(commitId: string, index: nat, added: array<Ptr>) returns (ok: bool)
      requires index < |blocks| ==> forall k :: 0 <= k < added.Length ==> added[k].Some?
      modifies this, added
      ensures ok <==> index < |old(blocks)|
      ensures ok ==>
                && |blocks| == (if index + added.Length < |old(blocks)| then |old(blocks)| else index + added.Length)
                && (forall k :: 0 <= k < added.Length ==> blocks[index + k] == old(added[..])[k].block)
                && (forall i :: 0 <= i < index || index + added.Length <= i < |old(blocks)| ==>
                      blocks[i] == old(blocks)[i])
      ensures ok ==>
                && blocks == Splice(old(blocks), index, Blocks(old(added[..])))
                && fileSize == (old(fileSize) + Sum(blocks) - Sum(old(blocks))) % 0x1_0000_0000_0000_0000
                && versions == old(versions) + [commitId]
                && forall k :: 0 <= k < added.Length ==> added[k] == None
      ensures !ok ==> unchanged(this) && unchanged(added)
    {
      hide Sum, SizeAfter, Splice;
      if index >= |blocks| {
        return false;
      }
      ghost var ptrs := added[..];
      ghost var news := Blocks(ptrs);
      SpliceNone(blocks, index, news);
      SizeUnchanged(fileSize, Sum(blocks));
      var finalSize := index + added.Length;
      var i, j := index, 0;
      while i < finalSize
        invariant 0 <= j <= added.Length && i == index + j
        invariant versions == old(versions)
        invariant forall k :: j <= k < added.Length ==> added[k] == ptrs[k]
        invariant forall k :: 0 <= k < j ==> added[k] == None
        invariant blocks == Splice(old(blocks), index, news[..j])
        invariant fileSize == SizeAfter(old(fileSize), Sum(old(blocks)), Sum(blocks))
      {
        var block := added[j].block;
        SpliceOne(old(blocks), index, news, j);
        if i < |blocks| {
          SumUpdate(blocks, i, block);
          SizeExchange(old(fileSize), Sum(old(blocks)), Sum(blocks), block.size, blocks[i].size,
                       Sum(blocks[i := block]));
          fileSize := (fileSize + block.size) % WORD;
          fileSize := (fileSize - blocks[i].size) % WORD;
          blocks := blocks[i := block];
        } else {
          SumPush(blocks, block);
          SizeGrowth(old(fileSize), Sum(old(blocks)), Sum(blocks), block.size);
          fileSize := (fileSize + block.size) % WORD;
          blocks := blocks + [block];
        }
        added[j] := None;
        i, j := i + 1, j + 1;
      }
      assert news[..added.Length] == news;
      SpliceAt(old(blocks), index, ptrs);
      SizeMoves(old(fileSize), Sum(old(blocks)), Sum(blocks));
      versions := versions + [commitId];
      return true;
    }
  }
}
